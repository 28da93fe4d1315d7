// Frames whose start, flags, address or stop bytes are wrong. The CRC does not protect what holds
// a frame together: after a wrong head the rest of the frame is read as if nothing had come before.
module Framing {
  import opened Bytes
  import opened Frame
  import opened Decoder
  import opened Codec
  import opened FrameFate
  import opened Link
  import opened Hearing

  // ---- Heads ----

  // First bytes that the decoder gives up on: a start byte without the second one, the wrong
  // flags, or the address of another station.
  predicate FalseHead(cfg: Config, own: bv8, head: seq<bv8>) {
    && |head| >= 2 && IsStart1(head[0])
    && match |head|
       case 2 => head[1] != START2
       case 3 => head[1] == START2 && head[2] != Frame.TypeMethod(cfg)
       case 5 => cfg.target && head[1] == START2 && head[2] == Frame.TypeMethod(cfg) && head[4] != own && head[4] != BROADCAST
       case _ => false
  }

  function HeadAnswer(head: seq<bv8>): Ret {
    if |head| == 2 then WaitData else if |head| == 3 then ErrTypeMethod else ErrAddr
  }

  lemma FalseHeadEnds(cfg: Config, own: bv8, s: State, head: seq<bv8>)
    requires s.phase == Start1 && FalseHead(cfg, own, head)
    ensures Ends(cfg, own, s, head, Reset(cfg, s), HeadAnswer(head))
  {
    hide Run, Ends, Reset, Frame.TypeMethod, IsStart1;
    match |head|
    case 2 =>
      assert head == [head[0], head[1]];
      Start2Wrong(cfg, own, s, head[0], head[1]);
    case 3 =>
      assert head == [head[0], head[1], head[2]];
      FlagsWrong(cfg, own, s, head[0], head[2]);
    case 5 =>
      assert head == [head[0], head[1], head[2], head[3], head[4]];
      AddressWrong(cfg, own, s, head[0], head[3], head[4]);
  }

  lemma Start2Wrong(cfg: Config, own: bv8, s: State, b: bv8, v: bv8)
    requires s.phase == Start1 && IsStart1(b) && v != START2
    ensures Ends(cfg, own, s, [b, v], Reset(cfg, s), WaitData)
  {
    hide Run, Quiet, Ends, FreshCrc, StepHeader, StepSeg, StepBody, StepCrc, StepMac, StepStop;
    var t := Go(Reset(cfg, s), Start2);
    QuietStep(cfg, own, s, b);
    EndsStep(cfg, own, t, v, Reset(cfg, s), WaitData);
    EndsAppend(cfg, own, s, [b], t, [v], Reset(cfg, s), WaitData);
    assert [b] + [v] == [b, v];
  }

  lemma FlagsWrong(cfg: Config, own: bv8, s: State, b: bv8, v: bv8)
    requires s.phase == Start1 && IsStart1(b) && v != Frame.TypeMethod(cfg)
    ensures Ends(cfg, own, s, [b, START2, v], Reset(cfg, s), ErrTypeMethod)
  {
    hide Run, Frame.TypeMethod, Clip, CrcOf, FreshCrc, StepHeader, StepSeg, StepBody, StepCrc, StepMac, StepStop;
    StartBytes(cfg, own, s, b);
    EndsStep(cfg, own, Begun(cfg, s), v, Reset(cfg, s), ErrTypeMethod);
    EndsAppend(cfg, own, s, [b, START2], Begun(cfg, s), [v], Reset(cfg, s), ErrTypeMethod);
    assert [b, START2] + [v] == [b, START2, v];
  }

  lemma AddressWrong(cfg: Config, own: bv8, s: State, b: bv8, src: bv8, dst: bv8)
    requires s.phase == Start1 && IsStart1(b) && cfg.target && dst != own && dst != BROADCAST
    ensures Ends(cfg, own, s, [b, START2, Frame.TypeMethod(cfg), src, dst], Reset(cfg, s), ErrAddr)
  {
    hide Quiet, Ends, Reset, Having, Frame.TypeMethod, IsStart1;
    var r, tm := Reset(cfg, s), Frame.TypeMethod(cfg);
    var t1, t2 := Having(cfg, r, [tm], Phase.Src), Having(cfg, r.(src := src), [tm] + [src], Dst);
    StartBytes(cfg, own, s, b);
    TypeMethodByte(cfg, own, r);
    QuietAppend(cfg, own, s, [b, START2], Begun(cfg, s), [tm], t1);
    SrcByte(cfg, own, r, [tm], src);
    QuietAppend(cfg, own, s, [b, START2] + [tm], t1, [src], t2);
    DstWrong(cfg, own, r.(src := src), [tm] + [src], dst);
    ResetTwice(cfg, s, src);
    EndsAppend(cfg, own, s, [b, START2] + [tm] + [src], t2, [dst], r, ErrAddr);
    assert [b, START2] + [tm] + [src] + [dst] == [b, START2, tm, src, dst];
  }

  lemma DstWrong(cfg: Config, own: bv8, s: State, h: seq<bv8>, dst: bv8)
    requires cfg.target && dst != own && dst != BROADCAST
    ensures Ends(cfg, own, Having(cfg, s, h, Dst), [dst], Reset(cfg, s), ErrAddr)
  {
    hide Ends, CrcOf, Clip, StepHeader, StepSeg, StepBody, StepCrc, StepMac, StepStop;
    EndsStep(cfg, own, Having(cfg, s, h, Dst), dst, Reset(cfg, s), ErrAddr);
  }

  lemma ResetTwice(cfg: Config, s: State, src: bv8)
    ensures Reset(cfg, Reset(cfg, s).(src := src)) == Reset(cfg, s)
  {
  }

  // After a false head the decoder reads on as if nothing had come before.
  lemma HeardAfterHead(cfg: Config, own: bv8, s: State, head: seq<bv8>, rest: seq<bv8>)
    requires s.phase == Start1 && FalseHead(cfg, own, head)
    ensures Heard(cfg, own, s, head + rest) == Heard(cfg, own, Reset(cfg, s), rest)
    ensures Noise(rest) ==> Heard(cfg, own, s, head + rest) == []
  {
    hide Run, Ends, Heard, FalseHead, HeadAnswer, Reset, IsStart1;
    FalseHeadEnds(cfg, own, s, head);
    FalseHeadUnheard(cfg, own, s, head);
    HeardAppend(cfg, own, s, head, rest);
    if Noise(rest) {
      ResetStarts(cfg, s);
      NoiseUnheard(cfg, own, Reset(cfg, s), rest);
    }
  }

  lemma FalseHeadUnheard(cfg: Config, own: bv8, s: State, head: seq<bv8>)
    requires s.phase == Start1 && FalseHead(cfg, own, head)
    ensures Heard(cfg, own, s, head) == [] && Run(cfg, own, s, head).0 == Reset(cfg, s)
  {
    hide Run, Ends, Heard, FalseHead, Reset;
    FalseHeadEnds(cfg, own, s, head);
    EndsUnheard(cfg, own, s, head, Reset(cfg, s), HeadAnswer(head));
  }

  lemma ResetStarts(cfg: Config, s: State)
    ensures Reset(cfg, s).phase == Start1
  {
  }

  lemma NoiseUnheard(cfg: Config, own: bv8, s: State, bytes: seq<bv8>)
    requires s.phase == Start1 && Noise(bytes)
    ensures Heard(cfg, own, s, bytes) == [] && Run(cfg, own, s, bytes).0 == s
  {
    hide Run, Heard, IsStart1;
    NoisePasses(cfg, own, s, bytes);
    NothingHeard(cfg, own, s, bytes);
  }

  // ---- Altered heads ----

  lemma WirePrefix(cfg: Config, f: Fields, p: seq<bv8>)
    requires |p| <= MaxPayload(cfg)
    ensures var w, h, e := Wire(cfg, f, p), Header(cfg, f, |p|), EccOf(cfg, p);
            && |w| >= StopAt(cfg, f, p) && w[..2] == [START1, START2] && w[2..PayloadAt(cfg, f, p)] == h
            && w[PayloadAt(cfg, f, p)..CheckAt(cfg, f, p)] == p
            && w[CheckAt(cfg, f, p)..CrcAt(cfg, f, p)] == e
            && w[CrcAt(cfg, f, p)..CrcAt(cfg, f, p) + |CrcOfFrame(cfg, f, p)|] == CrcOfFrame(cfg, f, p)
  {
    hide Wire, Header, EccOf, CrcOfFrame, TagOf;
    WireParts(cfg, f, p);
  }

  lemma HeaderStarts(cfg: Config, f: Fields, n: nat)
    requires n < 0x1_0000
    ensures var h := Header(cfg, f, n);
            |h| >= 4 && h[0] == Frame.TypeMethod(cfg) && (cfg.target ==> h[1] == f.src && h[2] == f.dst)
  {
    hide Frame.TypeMethod, Low16, High16, LengthField, SegHeader;
    var rest := [Low16(f.id), High16(f.id)] + When(cfg.arq, [f.seqByte]) + When(cfg.seg, SegHeader(f)) + LengthField(cfg, n);
    assert Header(cfg, f, n) == [Frame.TypeMethod(cfg)] + When(cfg.target, [f.src, f.dst]) + rest;
    SomeLength(cfg, n);
  }

  lemma SomeLength(cfg: Config, n: nat)
    requires n < 0x1_0000
    ensures |LengthField(cfg, n)| > 0
  {
    hide LowByte, HighByte;
  }

  lemma WireHead(cfg: Config, f: Fields, p: seq<bv8>)
    requires |p| <= MaxPayload(cfg)
    ensures var w, h := Wire(cfg, f, p), Header(cfg, f, |p|);
            && |h| >= 4 && PayloadAt(cfg, f, p) == 2 + |h| <= CheckAt(cfg, f, p) <= |w|
            && w[0] == START1 && w[1] == START2 && w[2] == Frame.TypeMethod(cfg)
            && (cfg.target ==> w[3] == f.src && w[4] == f.dst)
            && w[2..2 + |h|] == h && w[2 + |h|..CheckAt(cfg, f, p)] == p
  {
    hide Frame.TypeMethod, Wire, Header, EccOf, CrcOfFrame, TagOf;
    WirePrefix(cfg, f, p);
    HeaderStarts(cfg, f, |p|);
    var w, h := Wire(cfg, f, p), Header(cfg, f, |p|);
    assert w[..2][0] == w[0] && w[..2][1] == w[1];
    assert w[2..2 + |h|][0] == w[2] && w[2..2 + |h|][1] == w[3] && w[2..2 + |h|][2] == w[4];
  }

  // One of the first three bytes is altered, so that the frame is not recognised: what is heard of
  // it is what is heard of the bytes after the alteration, by a decoder that has just been
  // reset; nothing, if none of them can start a frame.
  lemma HeadAltered(cfg: Config, own: bv8, s: State, f: Fields, p: seq<bv8>, k: nat, v: bv8)
    requires s.phase == Start1 && |p| <= MaxPayload(cfg) && k <= 2
    requires k < |Wire(cfg, f, p)| && v != Wire(cfg, f, p)[k] && (k == 0 ==> !IsStart1(v))
    ensures var w := Wire(cfg, f, p)[k := v];
            var t := if k == 0 then s else Reset(cfg, s);
            && Run(cfg, own, s, w[..k + 1]) == (t, Progress(k) + [if k == 2 then ErrTypeMethod else WaitData])
            && Heard(cfg, own, s, w) == Heard(cfg, own, t, w[k + 1..])
            && (Noise(w[k + 1..]) ==> Heard(cfg, own, s, w) == [])
  {
    hide Run, Ends, Heard, Wire, Header, Reset, Frame.TypeMethod, IsStart1, FalseHead;
    WireHead(cfg, f, p);
    StartIsStart();
    var w := Wire(cfg, f, p)[k := v];
    var head, rest := w[..k + 1], w[k + 1..];
    assert w == head + rest;
    if k == 0 {
      assert head == [v];
      SpoiltStart(cfg, own, s, v);
      HeardAppend(cfg, own, s, head, rest);
      if Noise(rest) {
        NoiseUnheard(cfg, own, s, rest);
      }
    } else {
      SpoiltHead(cfg, own, s, k, v);
      assert head == (if k == 1 then [START1, v] else [START1, START2, v]);
      HeardAfterHead(cfg, own, s, head, rest);
    }
  }

  lemma SpoiltStart(cfg: Config, own: bv8, s: State, v: bv8)
    requires s.phase == Start1 && !IsStart1(v)
    ensures Run(cfg, own, s, [v]) == (s, Progress(0) + [WaitData]) && Heard(cfg, own, s, [v]) == []
  {
    hide Run, Heard, IsStart1;
    NoisePasses(cfg, own, s, [v]);
    NoiseUnheard(cfg, own, s, [v]);
    assert Idle(1) == Progress(0) + [WaitData];
  }

  lemma SpoiltHead(cfg: Config, own: bv8, s: State, k: nat, v: bv8)
    requires s.phase == Start1 && 1 <= k <= 2 && v != if k == 1 then START2 else Frame.TypeMethod(cfg)
    ensures var head := if k == 1 then [START1, v] else [START1, START2, v];
            && FalseHead(cfg, own, head)
            && Run(cfg, own, s, head) == (Reset(cfg, s), Progress(k) + [if k == 2 then ErrTypeMethod else WaitData])
  {
    hide Run, Reset, Frame.TypeMethod, IsStart1;
    StartIsStart();
    var head := if k == 1 then [START1, v] else [START1, START2, v];
    FalseHeadEnds(cfg, own, s, head);
    var rs := Run(cfg, own, s, head).1;
    assert rs == Progress(k) + [HeadAnswer(head)];
  }

  // A frame for another station is dropped at its address, and read on from there.
  lemma ForeignFrame(cfg: Config, own: bv8, s: State, f: Fields, p: seq<bv8>)
    requires s.phase == Start1 && |p| <= MaxPayload(cfg) && !Addressed(cfg, own, f)
    ensures |Wire(cfg, f, p)| > 5
    ensures Ends(cfg, own, s, Wire(cfg, f, p)[..5], Reset(cfg, s), ErrAddr)
    ensures Heard(cfg, own, s, Wire(cfg, f, p)) == Heard(cfg, own, Reset(cfg, s), Wire(cfg, f, p)[5..])
  {
    hide Run, Ends, Heard, Wire, Header, Reset, Frame.TypeMethod, IsStart1;
    WireHead(cfg, f, p);
    StartIsStart();
    var w := Wire(cfg, f, p);
    assert w[..5] == [START1, START2, Frame.TypeMethod(cfg), f.src, f.dst];
    FalseHeadEnds(cfg, own, s, w[..5]);
    assert w == w[..5] + w[5..];
    HeardAfterHead(cfg, own, s, w[..5], w[5..]);
  }

  // So a wrong flags byte can make the receiver deliver something that was not sent as a frame at
  // all: a payload that holds the bytes of a frame is taken apart, and that frame is delivered.
  lemma EmbeddedFrame(cfg: Config, own: bv8, s: State, f: Fields, g: Fields, q: seq<bv8>, v: bv8)
    requires s.phase == Start1 && v != Frame.TypeMethod(cfg) && Addressed(cfg, own, g)
    requires |q| <= MaxPayload(cfg) && |Wire(cfg, g, q)| <= MaxPayload(cfg)
    requires Noise(Header(cfg, f, |Wire(cfg, g, q)|)[1..])
    ensures |Wire(cfg, f, Wire(cfg, g, q))| > 2
    ensures var heard := Heard(cfg, own, s, Wire(cfg, f, Wire(cfg, g, q))[2 := v]);
            |heard| > 0 && heard[0] == Meant(cfg, g, q)
  {
    hide Run, Ends, Heard, Delivers, Wire, Header, Reset, Meant, Addressed, Frame.TypeMethod, IsStart1, Noise;
    var p := Wire(cfg, g, q);
    var w, h, t := Wire(cfg, f, p), Header(cfg, f, |p|), Reset(cfg, s);
    WireHead(cfg, f, p);
    HeadAltered(cfg, own, s, f, p, 2, v);
    ResetStarts(cfg, s);
    var rest := w[CheckAt(cfg, f, p)..];
    assert w[2 := v][3..] == h[1..] + (p + rest) by {
      HeadRest(w, h, p, v);
    }
    HeardAppend(cfg, own, t, h[1..], p + rest);
    NoiseUnheard(cfg, own, t, h[1..]);
    RoundTrip(cfg, own, t, g, q);
    HeardWhole(cfg, own, t, p, Meant(cfg, g, q), false);
    HeardAppend(cfg, own, t, p, rest);
  }

  lemma HeadRest(w: seq<bv8>, h: seq<bv8>, p: seq<bv8>, v: bv8)
    requires 0 < |h| && 2 + |h| + |p| <= |w| && w[2..2 + |h|] == h && w[2 + |h|..2 + |h| + |p|] == p
    ensures w[2 := v][3..] == h[1..] + (p + w[2 + |h| + |p|..])
  {
    assert h[1..] == w[3..2 + |h|];
    assert w[2 := v][3..] == w[3..];
    assert w[3..] == w[3..2 + |h|] + w[2 + |h|..];
  }

  lemma HeardWhole(cfg: Config, own: bv8, s: State, bytes: seq<bv8>, msg: Message, repaired: bool)
    requires Delivers(cfg, own, s, bytes, msg, repaired)
    ensures Heard(cfg, own, s, bytes) == [msg]
  {
    hide Run, Ends, Heard, Received;
    HeardAtEnd(cfg, own, s, bytes, Run(cfg, own, s, bytes).0);
  }

  // ---- Stop bytes ----

  // An intact frame up to its stop bytes.
  lemma UpToStop(cfg: Config, own: bv8, s: State, f: Fields, p: seq<bv8>) returns (u: State)
    requires s.phase == Start1 && Addressed(cfg, own, f) && |p| <= MaxPayload(cfg)
    ensures u.nacks == s.nacks
    ensures Quiet(cfg, own, s, Prefix(cfg, START1, f, p, EccOf(cfg, p)) + CrcOfFrame(cfg, f, p) + TagOf(cfg, f, p), Go(u, Stop1))
  {
    hide Quiet, Header, CrcField, TagField, EccOf, CrcOfFrame, TagOf, Settle, Addressed, Checked, IsStart1;
    var e, c, m := EccOf(cfg, p), CrcOfFrame(cfg, f, p), TagOf(cfg, f, p);
    PartSizes(cfg, f, p);
    HonestFrame(cfg, f, p);
    StartIsStart();
    var t := Checked(cfg, s, f, p, e, c, Block(p, false));
    CheckedMeans(cfg, s, f, p, e, c);
    CheckedBytes(cfg, own, s, START1, f, p, e, c, m);
    TagDecides(cfg, own, s, f, p, e, c, m);
    u := if cfg.hmac then t.(macRx := m) else t;
    QuietAppend(cfg, own, s, Prefix(cfg, START1, f, p, e) + c, Go(t, NextAfterCrc(cfg)), m, Go(u, Stop1));
  }

  // A reset decoder remembers only the NACKs sent.
  lemma ResetForgets(cfg: Config, s: State, t: State)
    requires s.nacks == t.nacks
    ensures Reset(cfg, s) == Reset(cfg, t)
  {
  }

  lemma Stop1Right(cfg: Config, own: bv8, u: State)
    ensures Quiet(cfg, own, Go(u, Stop1), [STOP1], Go(u, Stop2))
  {
    hide Quiet, Reset, StepStart, StepHeader, StepSeg, StepBody, StepCrc, StepMac;
    QuietStep(cfg, own, Go(u, Stop1), STOP1);
  }

  lemma Stop1Wrong(cfg: Config, own: bv8, s: State, u: State, v: bv8)
    requires u.nacks == s.nacks && v != STOP1
    ensures Ends(cfg, own, Go(u, Stop1), [v], Reset(cfg, s), ErrStop)
  {
    hide Ends, Reset, StepStart, StepHeader, StepSeg, StepBody, StepCrc, StepMac;
    ResetForgets(cfg, Go(u, Stop1), s);
    EndsStep(cfg, own, Go(u, Stop1), v, Reset(cfg, s), ErrStop);
  }

  lemma Stop2Wrong(cfg: Config, own: bv8, s: State, u: State, v: bv8)
    requires u.nacks == s.nacks && v != STOP2
    ensures Ends(cfg, own, Go(u, Stop1), [STOP1] + [v], Reset(cfg, s), ErrStop)
  {
    hide Quiet, Ends, Reset, StepStart, StepHeader, StepSeg, StepBody, StepCrc, StepMac;
    ResetForgets(cfg, Go(u, Stop2), s);
    Stop1Right(cfg, own, u);
    EndsStep(cfg, own, Go(u, Stop2), v, Reset(cfg, s), ErrStop);
    EndsAppend(cfg, own, Go(u, Stop1), [STOP1], Go(u, Stop2), [v], Reset(cfg, s), ErrStop);
  }

  // A wrong stop byte loses a frame that was otherwise good.
  lemma StopByteAltered(cfg: Config, own: bv8, s: State, f: Fields, p: seq<bv8>, k: nat, v: bv8)
    requires s.phase == Start1 && Addressed(cfg, own, f) && |p| <= MaxPayload(cfg)
    requires k < 2 && v != [STOP1, STOP2][k]
    ensures |Wire(cfg, f, p)| == StopAt(cfg, f, p) + 2
    ensures var n := StopAt(cfg, f, p) + k; Drops(cfg, own, s, Wire(cfg, f, p)[n := v], n + 1, Reset(cfg, s), ErrStop)
  {
    hide Quiet, Ends, Wire, Header, CrcField, TagField, EccOf, CrcOfFrame, TagOf, Addressed, Reset, Go;
    var pre := Prefix(cfg, START1, f, p, EccOf(cfg, p)) + CrcOfFrame(cfg, f, p) + TagOf(cfg, f, p);
    WireParts(cfg, f, p);
    var w, n := Wire(cfg, f, p), |pre|;
    assert n == StopAt(cfg, f, p);
    var u := UpToStop(cfg, own, s, f, p);
    if k == 0 {
      Stop1Wrong(cfg, own, s, u, v);
      EndsAppend(cfg, own, s, pre, Go(u, Stop1), [v], Reset(cfg, s), ErrStop);
      assert w[n := v][..n + 1] == pre + [v];
    } else {
      Stop2Wrong(cfg, own, s, u, v);
      EndsAppend(cfg, own, s, pre, Go(u, Stop1), [STOP1] + [v], Reset(cfg, s), ErrStop);
      assert w[n + 1 := v][..n + 2] == pre + ([STOP1] + [v]);
    }
  }
}
