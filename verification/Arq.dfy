// Blocking stop-and-wait ARQ: one endpoint.
module Arq {
  import opened Wrappers
  import Decoder

  const ACK_ID: bv16 := 0xFFFE
  const NACK_ID: bv16 := 0xFFFD
  const RST_ID: bv16 := 0xFFFC
  const MAX_RETRIES: nat := 3

  datatype Packet = Packet(id: bv16, seqByte: bv8, payload: seq<bv8>)

  // out holds everything transmitted, delivered everything handed to the application.
  datatype Endpoint = Endpoint(seqTx: bv8, seqRx: bv8, ack: bool, nack: bool, pend: Packet,
                               out: seq<Packet>, delivered: seq<Packet>)

  datatype Progress = Waiting(retries: nat) | Done(ok: bool)

  // One turn of the busy loop: the frame it reads, if any, and whether the timeout has passed.
  datatype Poll = Poll(got: Option<Packet>, late: bool)

  predicate IsControl(id: bv16) {
    id == ACK_ID || id == NACK_ID || id == RST_ID
  }

  function Next(seqNumber: bv8): bv8 {
    Decoder.SeqNumber(seqNumber + 1)
  }

  function Control(id: bv16, seqByte: bv8): Packet {
    Packet(id, 0, [Decoder.SeqNumber(seqByte)])
  }

  // A frame arrives. Data is acknowledged at once and always delivered.
  function Receive(a: Endpoint, p: Packet): Endpoint {
    if p.id == ACK_ID then (if |p.payload| >= 1 then a.(ack := true) else a)
    else if p.id == NACK_ID then (if |p.payload| >= 1 then a.(nack := true) else a)
    else if p.id == RST_ID then a.(seqRx := 0, seqTx := 0, ack := false, nack := false, pend := a.pend.(payload := []))
    else
      var n := Decoder.SeqNumber(p.seqByte);
      a.(out := a.out + [Control(ACK_ID, n)], seqRx := Next(n), delivered := a.delivered + [p])
  }

  // The reserved identifiers; every other frame is data and is acknowledged with its own number.
  lemma Received(a: Endpoint, p: Packet)
    ensures p.id == 0xFFFE ==> Receive(a, p) == if |p.payload| > 0 then a.(ack := true) else a
    ensures p.id == 0xFFFD ==> Receive(a, p) == if |p.payload| > 0 then a.(nack := true) else a
    ensures p.id == 0xFFFC ==>
              Receive(a, p) == a.(seqRx := 0, seqTx := 0, ack := false, nack := false, pend := a.pend.(payload := []))
    ensures p.id != 0xFFFC && p.id != 0xFFFD && p.id != 0xFFFE ==>
              Receive(a, p) == a.(out := a.out + [Packet(0xFFFE, 0, [p.seqByte & 0x7F])],
                                  seqRx := (p.seqByte + 1) & 0x7F, delivered := a.delivered + [p])
  {
    Numbered(p.seqByte);
    hide Next, Decoder.SeqNumber;
  }

  lemma Numbered(b: bv8)
    ensures Decoder.SeqNumber(b) == b & 0x7F && Decoder.SeqNumber(b & 0x7F) == b & 0x7F
    ensures Next(b & 0x7F) == (b + 1) & 0x7F
  {
  }

  function Transmit(a: Endpoint): Endpoint {
    a.(ack := false, nack := false, out := a.out + [a.pend])
  }

  function Begin(a: Endpoint, id: bv16, payload: seq<bv8>): Endpoint {
    Transmit(a.(pend := Packet(id, Decoder.SeqNumber(a.seqTx), payload)))
  }

  function Read(a: Endpoint, got: Option<Packet>): Endpoint {
    if got.Some? then Receive(a, got.value) else a
  }

  // One turn of the busy loop, and the next attempt if this one is over.
  function Turn(a: Endpoint, retries: nat, poll: Poll): (Endpoint, Progress) {
    var b := Read(a, poll.got);
    if b.ack then (b.(seqTx := Next(b.seqTx)), Done(true))
    else if b.nack || poll.late then
      if retries < MAX_RETRIES then (Transmit(b), Waiting(retries + 1))
      else (b.(seqTx := Next(b.seqTx)), Done(false))
    else (b, Waiting(retries))
  }

  function Drive(a: Endpoint, w: Progress, polls: seq<Poll>): (Endpoint, Progress)
    decreases |polls|
  {
    if w.Done? || |polls| == 0 then (a, w) else
    var (b, v) := Turn(a, w.retries, polls[0]);
    Drive(b, v, polls[1..])
  }

  // Blocked: the polls ran out before the call returned.
  datatype Result = Ok | Err | ErrMem | Blocked

  function ResultOf(w: Progress): Result {
    match w
    case Waiting(_) => Blocked
    case Done(ok) => if ok then Ok else Err
  }

  // How the busy loop of one attempt ends, and what is then left to do.
  datatype Wake = Acked | Retry | Starved

  function After(a: Endpoint, wake: Wake, retries: nat, polls: seq<Poll>): (Endpoint, Progress) {
    match wake
    case Acked => (a.(seqTx := Next(a.seqTx)), Done(true))
    case Starved => (a, Waiting(retries))
    case Retry =>
      if retries < MAX_RETRIES then Drive(Transmit(a), Waiting(retries + 1), polls)
      else (a.(seqTx := Next(a.seqTx)), Done(false))
  }

  class Instance {
    const maxPayload: nat
    var seqTx: bv8
    var seqRx: bv8
    var ackReceived: bool
    var nackReceived: bool
    const pendBuf: array<bv8>
    var pendLen: nat
    var pendId: bv16
    var pendSeq: bv8
    var out: seq<Packet>
    var delivered: seq<Packet>

    ghost predicate Valid()
      reads this
    {
      pendBuf.Length == maxPayload && pendLen <= maxPayload
    }

    ghost function Abstract(): Endpoint
      requires Valid()
      reads this, pendBuf
    {
      Endpoint(seqTx, seqRx, ackReceived, nackReceived, Packet(pendId, pendSeq, pendBuf[..pendLen]), out, delivered)
    }

    constructor (maxPayload: nat)
      ensures Valid() && fresh(pendBuf) && this.maxPayload == maxPayload
      ensures Abstract() == Endpoint(0, 0, false, false, Packet(0, 0, []), [], [])
    {
      this.maxPayload := maxPayload;
      pendBuf := new bv8[maxPayload];
      seqTx, seqRx, ackReceived, nackReceived := 0, 0, false, false;
      pendLen, pendId, pendSeq, out, delivered := 0, 0, 0, [], [];
    }

    method OnReceive(p: Packet) returns (consumed: bool)
      requires Valid()
      modifies this
      ensures Valid() && consumed == IsControl(p.id)
      ensures Abstract() == Receive(old(Abstract()), p).(delivered := old(delivered))
    {
      hide Next, Decoder.SeqNumber;
      if p.id == ACK_ID {
        if |p.payload| >= 1 {
          ackReceived := true;
        }
        return true;
      }
      if p.id == NACK_ID {
        if |p.payload| >= 1 {
          nackReceived := true;
        }
        return true;
      }
      if p.id == RST_ID {
        seqRx, seqTx, ackReceived, nackReceived, pendLen := 0, 0, false, false, 0;
        return true;
      }
      var n := Decoder.SeqNumber(p.seqByte);
      out := out + [Control(ACK_ID, n)];
      seqRx := Next(n);
      return false;
    }

    // One poll of the receiver: a frame that ARQ does not consume goes to the application.
    method Process(got: Option<Packet>)
      requires Valid()
      modifies this
      ensures Valid() && Abstract() == Read(old(Abstract()), got)
    {
      hide Next, Decoder.SeqNumber;
      if got.Some? {
        var consumed := OnReceive(got.value);
        if !consumed {
          delivered := delivered + [got.value];
        }
      }
    }

    method DoSend()
      requires Valid()
      modifies this`ackReceived, this`nackReceived, this`out
      ensures Valid() && Abstract() == Transmit(old(Abstract()))
    {
      ackReceived, nackReceived := false, false;
      out := out + [Packet(pendId, pendSeq, pendBuf[..pendLen])];
    }

    method Keep(id: bv16, data: array<bv8>, len: nat)
      requires Valid() && len <= data.Length && len <= maxPayload && data != pendBuf
      modifies this`pendSeq, this`pendLen, this`pendId, pendBuf
      ensures Valid()
      ensures Abstract() == old(Abstract()).(pend := Packet(id, Decoder.SeqNumber(old(seqTx)), old(data[..len])))
    {
      hide Decoder.SeqNumber;
      pendSeq := Decoder.SeqNumber(seqTx);
      var i := 0;
      while i < len
        invariant 0 <= i <= len && data[..] == old(data[..])
        invariant pendBuf[..i] == data[..i]
        modifies pendBuf
      {
        pendBuf[i] := data[i];
        i := i + 1;
      }
      pendLen := len;
      pendId := id;
      assert pendBuf[..len] == old(data[..len]);
    }

    method Advance()
      requires Valid()
      modifies this`seqTx
      ensures Valid() && Abstract() == old(Abstract()).(seqTx := Next(old(seqTx)))
    {
      hide Next;
      seqTx := Next(seqTx);
    }

    // The busy loop of one attempt; it starts at polls[i].
    method Await(retries: nat, polls: seq<Poll>, i: nat) returns (wake: Wake, k: nat)
      requires Valid() && i <= |polls| && retries <= MAX_RETRIES
      modifies this
      ensures Valid() && i <= k <= |polls|
      ensures Drive(old(Abstract()), Waiting(retries), polls[i..]) == After(Abstract(), wake, retries, polls[k..])
    {
      hide Abstract, Receive, Transmit, Next;
      ghost var goal := Drive(old(Abstract()), Waiting(retries), polls[i..]);
      k := i;
      while k < |polls|
        invariant i <= k <= |polls| && Valid()
        invariant goal == Drive(Abstract(), Waiting(retries), polls[k..])
      {
        ghost var a := Abstract();
        var poll := polls[k];
        assert polls[k..][0] == poll && polls[k..][1..] == polls[k + 1..];
        Process(poll.got);
        FieldsAre();
        k := k + 1;
        if ackReceived {
          return Acked, k;
        }
        if nackReceived || poll.late {
          return Retry, k;
        }
      }
      return Starved, k;
    }

    // polls is what the busy loop will see.
    method Send(id: bv16, data: array<bv8>, len: nat, polls: seq<Poll>) returns (r: Result)
      requires Valid() && len <= data.Length && data != pendBuf
      modifies this, pendBuf
      ensures Valid()
      ensures len > maxPayload ==> r == ErrMem && Abstract() == old(Abstract())
      ensures len <= maxPayload ==>
                var (b, w) := Drive(Begin(old(Abstract()), id, old(data[..len])), Waiting(0), polls);
                Abstract() == b && r == ResultOf(w)
      ensures len <= maxPayload ==> Counted(old(Abstract()), Abstract(), id, polls, r)
    {
      if len > maxPayload {
        return ErrMem;
      }
      hide Abstract, Receive, Turn, Next, Transmit, Decoder.SeqNumber, Counted;
      FieldsAre();
      SendIsCounted(Abstract(), id, data[..len], polls);
      Keep(id, data, len);
      r := Attempts(polls);
    }

    // The attempts, from the first transmission on.
    method Attempts(polls: seq<Poll>) returns (r: Result)
      requires Valid()
      modifies this
      ensures Valid()
      ensures var (b, w) := Drive(Transmit(old(Abstract())), Waiting(0), polls);
              Abstract() == b && r == ResultOf(w)
    {
      hide Abstract, Receive, Turn, Next, Transmit, Decoder.SeqNumber;
      ghost var goal := Drive(Transmit(old(Abstract())), Waiting(0), polls);
      var retries, i := 0, 0;
      assert polls[0..] == polls;
      while retries <= MAX_RETRIES
        invariant 0 <= retries <= MAX_RETRIES + 1 && 0 <= i <= |polls| && Valid()
        invariant goal == if retries <= MAX_RETRIES then Drive(Transmit(Abstract()), Waiting(retries), polls[i..])
                          else (Abstract().(seqTx := Next(Abstract().seqTx)), Done(false))
      {
        DoSend();
        var wake: Wake;
        wake, i := Await(retries, polls, i);
        FieldsAre();
        if wake == Starved {
          return Blocked;
        }
        if wake == Acked {
          Advance();
          return Ok;
        }
        retries := retries + 1;
      }
      FieldsAre();
      Advance();
      return Err;
    }

    lemma FieldsAre()
      requires Valid()
      ensures var a := Abstract(); a.seqTx == seqTx && a.ack == ackReceived && a.nack == nackReceived
    {
    }
  }

  // ---- What one send puts on the line ----

  predicate IsRst(poll: Poll) {
    poll.got.Some? && poll.got.value.id == RST_ID
  }

  // How many polls the send sees before it returns.
  function Consumed(a: Endpoint, w: Progress, polls: seq<Poll>): (n: nat)
    ensures n <= |polls|
    decreases |polls|
  {
    if w.Done? || |polls| == 0 then 0 else
    var (b, v) := Turn(a, w.retries, polls[0]);
    1 + Consumed(b, v, polls[1..])
  }

  predicate RstSeen(a: Endpoint, w: Progress, polls: seq<Poll>) {
    exists i :: 0 <= i < Consumed(a, w, polls) && IsRst(polls[i])
  }

  lemma RstSeenFirst(a: Endpoint, w: Progress, polls: seq<Poll>)
    requires w.Waiting? && |polls| > 0
    ensures var (b, v) := Turn(a, w.retries, polls[0]);
            RstSeen(a, w, polls) <==> IsRst(polls[0]) || RstSeen(b, v, polls[1..])
  {
    hide Turn, IsRst;
    var (b, v) := Turn(a, w.retries, polls[0]);
    var n := Consumed(b, v, polls[1..]);
    assert Consumed(a, w, polls) == n + 1;
    if RstSeen(a, w, polls) && !IsRst(polls[0]) {
      var i :| 0 <= i < n + 1 && IsRst(polls[i]);
      assert IsRst(polls[1..][i - 1]);
    }
    if RstSeen(b, v, polls[1..]) {
      var i :| 0 <= i < n && IsRst(polls[1..][i]);
      assert IsRst(polls[i + 1]);
    }
    if IsRst(polls[0]) {
      assert 0 <= 0 < n + 1;
    }
  }

  lemma TurnKeepsPending(a: Endpoint, retries: nat, poll: Poll)
    ensures Turn(a, retries, poll).0.pend == if IsRst(poll) then a.pend.(payload := []) else a.pend
  {
    hide Next, Decoder.SeqNumber;
  }

  // The frame kept for retransmission survives the send exactly if no RST arrives during it;
  // an RST leaves it with an empty payload.
  lemma {:induction false} PendingExactly(a: Endpoint, w: Progress, polls: seq<Poll>)
    ensures Drive(a, w, polls).0.pend == if RstSeen(a, w, polls) then a.pend.(payload := []) else a.pend
    decreases |polls|
  {
    hide Turn, RstSeen, IsRst;
    if w.Waiting? && |polls| > 0 {
      var (b, v) := Turn(a, w.retries, polls[0]);
      RstSeenFirst(a, w, polls);
      TurnKeepsPending(a, w.retries, polls[0]);
      PendingExactly(b, v, polls[1..]);
    } else {
      NothingSeen(a, w, polls);
    }
  }

  lemma NothingSeen(a: Endpoint, w: Progress, polls: seq<Poll>)
    requires w.Done? || |polls| == 0
    ensures !RstSeen(a, w, polls)
  {
  }

  function OwnFrames(out: seq<Packet>): seq<Packet> {
    if |out| == 0 then [] else
    OwnFrames(out[..|out| - 1]) + if IsControl(out[|out| - 1].id) then [] else [out[|out| - 1]]
  }

  lemma OwnFramesSnoc(out: seq<Packet>, p: Packet)
    ensures OwnFrames(out + [p]) == OwnFrames(out) + if IsControl(p.id) then [] else [p]
  {
    assert (out + [p])[..|out|] == out;
  }

  // How a turn extends the data frames sent: not at all, or by the pending frame.
  lemma TurnSends(a: Endpoint, retries: nat, poll: Poll)
    requires retries <= MAX_RETRIES && !IsControl(a.pend.id)
    ensures var (b, w) := Turn(a, retries, poll);
            && (w.Waiting? ==> retries <= w.retries <= retries + 1 && w.retries <= MAX_RETRIES)
            && OwnFrames(b.out) == OwnFrames(a.out) + if w.Waiting? && w.retries > retries then [b.pend] else []
  {
    hide Next, Decoder.SeqNumber, OwnFrames;
    var r := Read(a, poll.got);
    if r.out != a.out {
      OwnFramesSnoc(a.out, Control(ACK_ID, Decoder.SeqNumber(poll.got.value.seqByte)));
    }
    assert OwnFrames(a.out) + [] == OwnFrames(a.out);
    assert OwnFrames(r.out) == OwnFrames(a.out);
    OwnFramesSnoc(r.out, r.pend);
  }

  // A send transmits its frame at most MAX_RETRIES + 1 times in all, never anything else, and
  // unaltered as long as no RST arrives.
  lemma {:induction false} Transmissions(a: Endpoint, w: Progress, polls: seq<Poll>) returns (more: seq<Packet>)
    requires w.Waiting? && w.retries <= MAX_RETRIES && !IsControl(a.pend.id)
    ensures OwnFrames(Drive(a, w, polls).0.out) == OwnFrames(a.out) + more && |more| <= MAX_RETRIES - w.retries
    ensures forall p :: p in more ==> p == a.pend || p == a.pend.(payload := [])
    ensures !RstSeen(a, w, polls) ==> forall p :: p in more ==> p == a.pend
    decreases |polls|
  {
    hide Turn, RstSeen, IsRst, OwnFrames;
    more := [];
    if |polls| > 0 {
      var (b, v) := Turn(a, w.retries, polls[0]);
      RstSeenFirst(a, w, polls);
      TurnKeepsPending(a, w.retries, polls[0]);
      TurnSends(a, w.retries, polls[0]);
      more := if v.Waiting? && v.retries > w.retries then [b.pend] else [];
      if v.Waiting? {
        var rest := Transmissions(b, v, polls[1..]);
        assert OwnFrames(a.out) + more + rest == OwnFrames(a.out) + (more + rest);
        more := more + rest;
      }
    }
  }

  // ---- What a send does, counted on what it sees ----

  // An ACK with a payload, whatever its number, ends the wait.
  predicate IsAckPoll(poll: Poll) {
    poll.got.Some? && poll.got.value.id == 0xFFFE && |poll.got.value.payload| > 0
  }

  // A NACK with a payload, or the timeout, ends the attempt.
  predicate IsFailure(poll: Poll) {
    poll.late || (poll.got.Some? && poll.got.value.id == 0xFFFD && |poll.got.value.payload| > 0)
  }

  function FirstAck(polls: seq<Poll>): (i: nat)
    ensures i <= |polls|
  {
    if |polls| == 0 || IsAckPoll(polls[0]) then 0 else 1 + FirstAck(polls[1..])
  }

  function Failures(polls: seq<Poll>): nat {
    if |polls| == 0 then 0 else (if IsFailure(polls[0]) then 1 else 0) + Failures(polls[1..])
  }

  function Min(a: nat, b: nat): nat {
    if a <= b then a else b
  }

  // One turn with the flags clear: the three ways it can go.
  lemma TurnOutcome(a: Endpoint, retries: nat, poll: Poll)
    requires !a.ack && !a.nack && retries <= MAX_RETRIES
    ensures var (b, w) := Turn(a, retries, poll);
            && w == (if IsAckPoll(poll) then Done(true)
                     else if !IsFailure(poll) then Waiting(retries)
                     else if retries < 3 then Waiting(retries + 1) else Done(false))
            && (w.Waiting? ==> !b.ack && !b.nack)
  {
    hide Next, Decoder.SeqNumber;
  }

  // From attempt number retries on.
  lemma {:induction false} DriveCounts(a: Endpoint, retries: nat, polls: seq<Poll>)
    requires !a.ack && !a.nack && retries <= MAX_RETRIES && !IsControl(a.pend.id)
    ensures var acked := FirstAck(polls);
            var failed := retries + Failures(polls[..acked]);
            var (b, w) := Drive(a, Waiting(retries), polls);
            && w == (if failed > 3 then Done(false) else if acked < |polls| then Done(true) else Waiting(failed))
            && |OwnFrames(b.out)| == |OwnFrames(a.out)| + Min(failed, 3) - retries
    decreases |polls|
  {
    hide Turn, OwnFrames, IsAckPoll, IsFailure, Decoder.SeqNumber;
    if |polls| > 0 {
      var (b, v) := Turn(a, retries, polls[0]);
      TurnOutcome(a, retries, polls[0]);
      TurnSends(a, retries, polls[0]);
      TurnKeepsPending(a, retries, polls[0]);
      if !IsAckPoll(polls[0]) {
        var acked := FirstAck(polls);
        assert polls[..acked][1..] == polls[1..][..acked - 1];
        if v.Waiting? {
          DriveCounts(b, v.retries, polls[1..]);
        }
      }
    }
  }

  // A send transmits its frame once, and again after every failure until the fourth: that one, if
  // no ACK has come before it, makes the send fail. An ACK ends it with success.
  lemma SendCounts(a: Endpoint, id: bv16, payload: seq<bv8>, polls: seq<Poll>)
    requires !IsControl(id)
    ensures var acked := FirstAck(polls);
            var failed := Failures(polls[..acked]);
            var (b, w) := Drive(Begin(a, id, payload), Waiting(0), polls);
            && w == (if failed > 3 then Done(false) else if acked < |polls| then Done(true) else Waiting(failed))
            && |OwnFrames(b.out)| == |OwnFrames(a.out)| + 1 + Min(failed, 3)
  {
    hide Drive, OwnFrames, Decoder.SeqNumber, FirstAck, Failures;
    var b := Begin(a, id, payload);
    OwnFramesSnoc(a.out, b.pend);
    DriveCounts(b, 0, polls);
  }

  // The same, of the endpoint before and after a call that returned r.
  ghost predicate Counted(a: Endpoint, b: Endpoint, id: bv16, polls: seq<Poll>, r: Result) {
    !IsControl(id) ==>
      var acked := FirstAck(polls);
      var failed := Failures(polls[..acked]);
      && r == (if failed > 3 then Err else if acked < |polls| then Ok else Blocked)
      && |OwnFrames(b.out)| == |OwnFrames(a.out)| + 1 + Min(failed, 3)
  }

  lemma SendIsCounted(a: Endpoint, id: bv16, payload: seq<bv8>, polls: seq<Poll>)
    ensures var (b, w) := Drive(Begin(a, id, payload), Waiting(0), polls);
            Counted(a, b, id, polls, ResultOf(w))
  {
    hide Begin, Drive, OwnFrames, FirstAck, Failures;
    if !IsControl(id) {
      SendCounts(a, id, payload, polls);
    }
  }

  function Repeat(p: Packet, n: nat): (r: seq<Packet>)
    ensures |r| == n && forall i :: 0 <= i < n ==> r[i] == p
  {
    seq(n, i => p)
  }

  // Without an RST all those frames are the one that was to be sent, and afterwards the sequence
  // number has moved on by one, whether the send succeeded or not.
  lemma SendExactly(a: Endpoint, id: bv16, payload: seq<bv8>, polls: seq<Poll>)
    requires !IsControl(id) && forall poll :: poll in polls ==> !IsRst(poll)
    ensures var failed := Failures(polls[..FirstAck(polls)]);
            var (b, w) := Drive(Begin(a, id, payload), Waiting(0), polls);
            && OwnFrames(b.out) == OwnFrames(a.out) + Repeat(Packet(id, a.seqTx & 0x7F, payload), 1 + Min(failed, 3))
            && b.seqTx == if w.Done? then (a.seqTx + 1) & 0x7F else a.seqTx
  {
    hide Drive, OwnFrames, FirstAck, Failures, RstSeen;
    var b := Begin(a, id, payload);
    OwnFramesSnoc(a.out, b.pend);
    NoRstSeen(b, Waiting(0), polls);
    var more := Transmissions(b, Waiting(0), polls);
    SendCounts(a, id, payload, polls);
    DriveMovesOn(b, 0, polls);
    var n := Min(Failures(polls[..FirstAck(polls)]), 3);
    assert |more| == n && forall i :: 0 <= i < n ==> more[i] in more;
    assert [b.pend] + more == Repeat(b.pend, 1 + n);
    assert OwnFrames(a.out) + [b.pend] + more == OwnFrames(a.out) + ([b.pend] + more);
  }

  lemma NoRstSeen(a: Endpoint, w: Progress, polls: seq<Poll>)
    requires forall poll :: poll in polls ==> !IsRst(poll)
    ensures !RstSeen(a, w, polls)
  {
    hide IsRst;
  }

  lemma TurnMovesOn(a: Endpoint, retries: nat, poll: Poll)
    requires !IsRst(poll)
    ensures var (b, w) := Turn(a, retries, poll); b.seqTx == if w.Done? then (a.seqTx + 1) & 0x7F else a.seqTx
  {
    hide Read, Receive, IsRst, Next, Decoder.SeqNumber;
    ReadKeepsNumber(a, poll);
    NextIs(a.seqTx);
  }

  lemma NextIs(n: bv8)
    ensures Next(n) == (n + 1) & 0x7F
  {
  }

  lemma ReadKeepsNumber(a: Endpoint, poll: Poll)
    requires !IsRst(poll)
    ensures Read(a, poll.got).seqTx == a.seqTx
  {
    hide IsControl, Control, Next, Decoder.SeqNumber;
  }

  lemma {:induction false} DriveMovesOn(a: Endpoint, retries: nat, polls: seq<Poll>)
    requires forall poll :: poll in polls ==> !IsRst(poll)
    ensures var (b, w) := Drive(a, Waiting(retries), polls);
            b.seqTx == if w.Done? then (a.seqTx + 1) & 0x7F else a.seqTx
    decreases |polls|
  {
    hide Turn, IsRst;
    if |polls| > 0 {
      var (b, v) := Turn(a, retries, polls[0]);
      assert polls[0] in polls;
      TurnMovesOn(a, retries, polls[0]);
      if v.Waiting? {
        DriveMovesOn(b, v.retries, polls[1..]);
      }
    }
  }
}
