// What holds of the decoder on every input, well formed or not.
module Reception {
  import opened Bytes
  import opened Frame
  import opened Wrappers
  import opened Decoder
  import opened Codec
  import opened Receive
  import opened FrameFate
  import opened Link
  import Crc
  import Leb128
  import SipHash

  // ---- Invariant ----

  // Only compiled-in fields are waited for, and a payload index stays below its length and
  // within the buffer. With 8-bit lengths a payload always fits the buffer.
  ghost predicate Bounded(cfg: Config, s: State) {
    && |s.data| == MaxPayload(cfg)
    && Compiled(cfg, s.phase)
    && (!cfg.len16 ==> s.length < 256)
    && (s.phase == LenHigh ==> s.length < 256)
    && s.length < 0x1_0000
    && (s.phase == Data ==> s.index < s.length && s.index <= |s.data|)
  }

  lemma ResetBounded(cfg: Config, s: State)
    ensures Bounded(cfg, Reset(cfg, s))
  {
    hide FreshCrc;
  }

  // What one step may answer.
  predicate Sound(cfg: Config, r: Ret) {
    r != Err && (!cfg.len16 ==> r != ErrMem)
  }

  ghost predicate KeepsBounds(cfg: Config, step: (State, Ret)) {
    Bounded(cfg, step.0) && Sound(cfg, step.1)
  }

  // The part of the invariant that does not depend on where the decoder is.
  ghost predicate Roomy(cfg: Config, s: State) {
    |s.data| == MaxPayload(cfg) && (!cfg.len16 ==> s.length < 256) && s.length < 0x1_0000
  }

  lemma MovesTo(cfg: Config, t: State, p: Phase)
    requires Roomy(cfg, t) && Compiled(cfg, p)
    requires (p == Data ==> t.length > 0) && (p == LenHigh ==> t.length < 256)
    ensures KeepsBounds(cfg, Plain(Go(t, p)))
  {
  }

  lemma AfterLengthMoves(cfg: Config, t: State)
    requires Roomy(cfg, t)
    ensures KeepsBounds(cfg, Plain(AfterLength(cfg, t)))
  {
    hide KeepsBounds, Plain, Roomy, Go;
    AfterLengthIs(cfg, t);
    MovesTo(cfg, t, NextAfterLength(cfg, t.length));
  }

  lemma AfterDataMoves(cfg: Config, t: State)
    requires Roomy(cfg, t)
    ensures KeepsBounds(cfg, Plain(AfterData(cfg, t)))
  {
    hide KeepsBounds, Plain, Roomy, Go;
    MovesTo(cfg, t, NextAfterData(cfg));
  }

  lemma HdrByteRoomy(cfg: Config, s: State, b: bv8)
    requires Roomy(cfg, s)
    ensures Roomy(cfg, HdrByte(cfg, s, b))
    ensures var t := HdrByte(cfg, s, b); t.length == s.length && t.phase == s.phase && t.index == s.index
  {
    hide CrcFeed;
  }

  lemma ResetKeeps(cfg: Config, s: State, r: Ret)
    requires Sound(cfg, r)
    ensures KeepsBounds(cfg, (Reset(cfg, s), r))
  {
    hide Reset;
    ResetBounded(cfg, s);
  }

  lemma StartKeeps(cfg: Config, own: bv8, s: State, b: bv8)
    requires Bounded(cfg, s) && s.phase in {Start1, Start2, TypeMethod, Phase.Src, Dst}
    ensures KeepsBounds(cfg, StepStart(cfg, own, s, b))
  {
    hide Reset, HdrByte, Frame.TypeMethod, IsStart1, KeepsBounds, Go, Plain;
    match s.phase
    case Start1 =>
      ResetBounded(cfg, s);
      MovesTo(cfg, Reset(cfg, s), Start2);
      StaysPut(cfg, s);
    case Start2 =>
      MovesTo(cfg, s, TypeMethod);
      ResetBounded(cfg, s);
      StaysPut(cfg, Reset(cfg, s));
    case TypeMethod =>
      HdrByteRoomy(cfg, s, b);
      MovesTo(cfg, HdrByte(cfg, s, b), if cfg.target then Phase.Src else IdLow);
      ResetKeeps(cfg, s, ErrTypeMethod);
    case Src =>
      HdrByteRoomy(cfg, s.(src := b), b);
      MovesTo(cfg, HdrByte(cfg, s.(src := b), b), Dst);
    case Dst =>
      HdrByteRoomy(cfg, s, b);
      MovesTo(cfg, HdrByte(cfg, s, b), IdLow);
      ResetKeeps(cfg, s, ErrAddr);
  }

  lemma StaysPut(cfg: Config, s: State)
    requires Bounded(cfg, s)
    ensures KeepsBounds(cfg, Plain(s))
  {
  }

  lemma HeaderKeeps(cfg: Config, s: State, b: bv8)
    requires Bounded(cfg, s) && s.phase in {IdLow, IdHigh, Seq, LenLow, LenHigh}
    ensures KeepsBounds(cfg, StepHeader(cfg, s, b))
  {
    hide HdrByte, KeepsBounds, Plain, Go, AfterLength, ToNat, FromLow, WithHigh;
    match s.phase
    case IdLow =>
      HdrByteRoomy(cfg, s.(id := FromLow(b)), b);
      MovesTo(cfg, HdrByte(cfg, s.(id := FromLow(b)), b), IdHigh);
    case IdHigh =>
      HdrByteRoomy(cfg, s.(id := WithHigh(s.id, b)), b);
      MovesTo(cfg, HdrByte(cfg, s.(id := WithHigh(s.id, b)), b), NextAfterIds(cfg));
    case Seq =>
      HdrByteRoomy(cfg, s.(seqByte := b), b);
      MovesTo(cfg, HdrByte(cfg, s.(seqByte := b), b), NextAfterSeq(cfg));
    case LenLow =>
      var t := HdrByte(cfg, s.(length := ToNat(b)), b);
      HdrByteRoomy(cfg, s.(length := ToNat(b)), b);
      if cfg.len16 {
        MovesTo(cfg, t, LenHigh);
      } else {
        AfterLengthMoves(cfg, t);
      }
    case LenHigh =>
      var t := s.(length := s.length + 256 * ToNat(b));
      HdrByteRoomy(cfg, t, b);
      AfterLengthMoves(cfg, HdrByte(cfg, t, b));
  }

  lemma SegKeeps(cfg: Config, s: State, b: bv8)
    requires Bounded(cfg, s) && s.phase in {SegStream, SegIdx, SegTotal}
    ensures KeepsBounds(cfg, StepSeg(cfg, s, b))
  {
    hide HdrByte, Leb128.Absorb, Leb128.Last, Go, Roomy;
    assert Roomy(cfg, s) by {
      RoomyFromBounds(cfg, s);
    }
    match s.phase
    case SegStream =>
      SegStreamKeeps(cfg, s, b);
    case SegIdx =>
      var a := Leb128.Absorb(Leb128.Acc(s.idx, s.shift), b);
      ChunkNumberKeeps(cfg, s.(idx := a.value, shift := if Leb128.Last(b) then 0 else a.shift), b, SegTotal);
    case SegTotal =>
      var a := Leb128.Absorb(Leb128.Acc(s.total, s.shift), b);
      ChunkNumberKeeps(cfg, s.(total := a.value, shift := a.shift), b, LenLow);
  }

  lemma RoomyFromBounds(cfg: Config, s: State)
    requires Bounded(cfg, s)
    ensures Roomy(cfg, s)
  {
  }

  lemma SegStreamKeeps(cfg: Config, s: State, b: bv8)
    requires Bounded(cfg, s) && s.phase == SegStream
    ensures KeepsBounds(cfg, StepSeg(cfg, s, b))
  {
    hide HdrByte, Go, KeepsBounds, Plain;
    var t := s.(stream := b, idx := 0, total := 0, shift := 0);
    HdrByteRoomy(cfg, t, b);
    MovesTo(cfg, HdrByte(cfg, t, b), SegIdx);
  }

  // A byte of a chunk number either ends it or leaves the decoder where it is.
  lemma ChunkNumberKeeps(cfg: Config, s: State, b: bv8, p: Phase)
    requires Bounded(cfg, s) && s.phase in {SegIdx, SegTotal} && cfg.seg && p in {SegTotal, LenLow}
    ensures var t := HdrByte(cfg, s, b); KeepsBounds(cfg, Plain(Go(t, p))) && KeepsBounds(cfg, Plain(t))
  {
    hide HdrByte;
    HdrByteRoomy(cfg, s, b);
    MovesTo(cfg, HdrByte(cfg, s, b), p);
  }

  lemma BodyKeeps(cfg: Config, s: State, b: bv8)
    requires Bounded(cfg, s) && s.phase in {Data, Ecc0, Ecc1}
    ensures KeepsBounds(cfg, StepBody(cfg, s, b))
  {
    hide Reset, CrcFeed, KeepsBounds, AfterData, AfterEcc, Go, Plain;
    match s.phase
    case Data =>
      DataKeeps(cfg, s, b);
    case Ecc0 =>
      MovesTo(cfg, EccByte(cfg, s.(ecc0 := b), b), Ecc1);
    case Ecc1 =>
      AfterEccMoves(cfg, EccByte(cfg, s.(ecc1 := b), b));
  }

  lemma AfterEccMoves(cfg: Config, t: State)
    requires Roomy(cfg, t)
    ensures KeepsBounds(cfg, Plain(AfterEcc(cfg, t)))
  {
    hide KeepsBounds, Plain, Roomy, Go;
    MovesTo(cfg, t, NextAfterEcc(cfg));
  }

  lemma AfterCrcMoves(cfg: Config, t: State)
    requires Roomy(cfg, t)
    ensures KeepsBounds(cfg, Plain(AfterCrc(cfg, t)))
  {
    hide KeepsBounds, Plain, Roomy, Go;
    MovesTo(cfg, t, NextAfterCrc(cfg));
  }

  lemma DataKeeps(cfg: Config, s: State, b: bv8)
    requires Bounded(cfg, s) && s.phase == Data
    ensures KeepsBounds(cfg, StepBody(cfg, s, b))
  {
    hide Reset, CrcFeed, AfterData;
    if s.index >= |s.data| {
      ResetKeeps(cfg, s, ErrMem);
    } else {
      var t := s.(data := s.data[s.index := b], index := s.index + 1, crc := CrcFeed(cfg, s.crc, b));
      AfterDataMoves(cfg, t);
    }
  }

  lemma CrcKeeps(cfg: Config, s: State, b: bv8)
    requires Bounded(cfg, s) && s.phase in {Crc1, Crc2, Crc3, Crc4}
    ensures KeepsBounds(cfg, StepCrc(cfg, s, b))
  {
    hide CheckCrc, KeepsBounds, Go, Plain, CrcByte, Roomy;
    CrcByteRoomy(cfg, s, b);
    CrcByteRoomy(cfg, s.(crcRx := []), b);
    if s.phase == Crc1 {
      MovesTo(cfg, CrcByte(s.(crcRx := []), b), Crc2);
    } else if s.phase == Crc2 && cfg.crc == Some(Crc.Kind32) {
      MovesTo(cfg, CrcByte(s, b), Crc3);
    } else if s.phase == Crc3 {
      MovesTo(cfg, CrcByte(s, b), Crc4);
    } else {
      CheckCrcKeeps(cfg, CrcByte(s, b));
    }
  }

  lemma CrcByteRoomy(cfg: Config, s: State, b: bv8)
    requires Bounded(cfg, s)
    ensures Roomy(cfg, CrcByte(s, b))
  {
  }

  lemma CheckCrcKeeps(cfg: Config, s: State)
    requires Roomy(cfg, s)
    ensures KeepsBounds(cfg, CheckCrc(cfg, s))
  {
    hide Reset, Repair, Crc.Bytes, SeqNumber, KeepsBounds, AfterCrc, Plain;
    AfterCrcMoves(cfg, s);
    var (res, block) := Repair(cfg, s);
    AfterCrcMoves(cfg, s.(corrected := true, data := block + s.data[|block|..]));
    ResetKeeps(cfg, if cfg.arq then s.(nacks := s.nacks + [SeqNumber(s.seqByte)]) else s, ErrCrc);
  }

  lemma MacKeeps(cfg: Config, s: State, b: bv8)
    requires Bounded(cfg, s) && s.phase in {Mac1, Mac2, Mac3, Mac4}
    ensures KeepsBounds(cfg, StepMac(cfg, s, b))
  {
    hide CheckTag, KeepsBounds, Go, Plain;
    if s.phase == Mac1 {
      MovesTo(cfg, s.(macRx := [b]), Mac2);
    } else if s.phase == Mac2 {
      MovesTo(cfg, s.(macRx := s.macRx + [b]), Mac3);
    } else if s.phase == Mac3 {
      MovesTo(cfg, s.(macRx := s.macRx + [b]), Mac4);
    } else {
      CheckTagKeeps(cfg, s.(macRx := s.macRx + [b]));
    }
  }

  lemma CheckTagKeeps(cfg: Config, s: State)
    requires Roomy(cfg, s) && cfg.hmac
    ensures KeepsBounds(cfg, CheckTag(cfg, s))
  {
    hide Reset, TagData, Bytes32, SipHash.Tag, KeepsBounds, Go, Plain;
    MovesTo(cfg, s, Stop1);
    ResetKeeps(cfg, s, ErrHmac);
  }

  lemma StopKeeps(cfg: Config, s: State, b: bv8)
    requires Bounded(cfg, s) && s.phase in {Stop1, Stop2}
    ensures KeepsBounds(cfg, StepStop(cfg, s, b))
  {
    hide Reset;
    ResetBounded(cfg, s);
  }

  lemma StepKeeps(cfg: Config, own: bv8, s: State, b: bv8)
    requires Bounded(cfg, s)
    ensures KeepsBounds(cfg, Step(cfg, own, s, b))
  {
    hide StepStart, StepHeader, StepSeg, StepBody, StepCrc, StepMac, StepStop, KeepsBounds, Reset;
    match s.phase
    case Start1 | Start2 | TypeMethod | Src | Dst => StartKeeps(cfg, own, s, b);
    case IdLow | IdHigh | Seq | LenLow | LenHigh => HeaderKeeps(cfg, s, b);
    case SegStream | SegIdx | SegTotal => SegKeeps(cfg, s, b);
    case Data | Ecc0 | Ecc1 => BodyKeeps(cfg, s, b);
    case Crc1 | Crc2 | Crc3 | Crc4 => CrcKeeps(cfg, s, b);
    case Mac1 | Mac2 | Mac3 | Mac4 => MacKeeps(cfg, s, b);
    case Stop1 | Stop2 => StopKeeps(cfg, s, b);
  }

  // Every run, on any bytes at all, keeps the invariant: the decoder never finds itself in a
  // state that is not compiled in, and with 8-bit lengths never overflows its buffer.
  lemma {:induction false} RunKeeps(cfg: Config, own: bv8, s: State, bytes: seq<bv8>)
    requires Bounded(cfg, s)
    ensures var (t, rs) := Run(cfg, own, s, bytes);
            Bounded(cfg, t) && forall r :: r in rs ==> Sound(cfg, r)
    decreases |bytes|
  {
    hide Step, Bounded, Sound;
    if |bytes| != 0 {
      StepKeeps(cfg, own, s, bytes[0]);
      RunKeeps(cfg, own, Step(cfg, own, s, bytes[0]).0, bytes[1..]);
    }
  }

  // ---- Overflow ----

  // Payload bytes short of the end of the payload.
  lemma {:induction false} PartOfPayload(cfg: Config, own: bv8, s: State, h: seq<bv8>, p: seq<bv8>) returns (t: State)
    requires s.phase == Data && s.index + |p| < s.length && s.index + |p| <= |s.data| && s.crc == CrcOf(cfg, h)
    ensures Quiet(cfg, own, s, p, t)
    ensures t.phase == Data && t.index == s.index + |p| && |t.data| == |s.data|
    decreases |p|
  {
    hide CrcOf, Quiet;
    if |p| == 0 {
      QuietNone(cfg, own, s);
      t := s;
    } else {
      var u := Stored(cfg, s, h, p[0]);
      DataByte(cfg, own, s, h, p[0]);
      t := PartOfPayload(cfg, own, u, h + [p[0]], p[1..]);
      assert [p[0]] + p[1..] == p;
      QuietAppend(cfg, own, s, [p[0]], u, p[1..], t);
    }
  }

  lemma TooManyBytes(cfg: Config, own: bv8, t: State, b: bv8)
    requires t.phase == Data && t.index == |t.data|
    ensures Ends(cfg, own, t, [b], Reset(cfg, t), ErrMem)
  {
    hide Ends, Reset, StepStart, StepHeader, StepSeg, StepCrc, StepMac, StepStop;
    EndsStep(cfg, own, t, b, Reset(cfg, t), ErrMem);
  }

  // With 16-bit lengths a header may announce more than the buffer holds, and then the
  // overflow is reported on the first byte that does not fit.
  lemma Overflows(cfg: Config, own: bv8, s: State, f: Fields, n: nat, p: seq<bv8>, b: bv8) returns (t: State)
    requires cfg.len16 && s.phase == Start1 && Addressed(cfg, own, f)
    requires MaxPayload(cfg) < n < 0x1_0000 && |p| == MaxPayload(cfg)
    ensures Ends(cfg, own, s, [START1, START2] + Header(cfg, f, n) + p + [b], t, ErrMem)
  {
    hide Quiet, Ends, CrcOf, Clip, Header, Parsed, Zeros, FreshCrc, IsStart1;
    var start, header := [START1, START2], Header(cfg, f, n);
    var u := AfterHeader(cfg, s, f, n);
    StartIsStart();
    StartBytes(cfg, own, s, START1);
    HeaderBytes(cfg, own, Reset(cfg, s), f, n);
    ParsedKeeps(cfg, Reset(cfg, s), f, n);
    QuietAppend(cfg, own, s, start, Begun(cfg, s), header, Go(u, Data));
    var v := PartOfPayload(cfg, own, Go(u, Data), header, p);
    QuietAppend(cfg, own, s, start + header, Go(u, Data), p, v);
    TooManyBytes(cfg, own, v, b);
    t := Reset(cfg, v);
    EndsAppend(cfg, own, s, start + header + p, v, [b], t, ErrMem);
  }

  ghost predicate MayOverflow(cfg: Config) {
    exists own: bv8, bytes: seq<bv8>, s: State :: Bounded(cfg, s) && ErrMem in Run(cfg, own, s, bytes).1
  }

  // The overflow branch is dead code exactly in the builds with 8-bit lengths.
  lemma OverflowReachable(cfg: Config)
    ensures MayOverflow(cfg) <==> cfg.len16
  {
    if cfg.len16 {
      OverflowWitness(cfg);
    } else {
      forall own: bv8, bytes: seq<bv8>, s: State | Bounded(cfg, s)
        ensures ErrMem !in Run(cfg, own, s, bytes).1
      {
        RunKeeps(cfg, own, s, bytes);
      }
    }
  }

  lemma OverflowWitness(cfg: Config)
    requires cfg.len16
    ensures MayOverflow(cfg)
  {
    hide Run, Header, Ends, Reset;
    var f := Fields(0, 0, 0, 0, 0, 0, 0);
    var blank := State(Start1, 0, 0, 0, 0, 0, 0, 0, 0, [], 0, 0, 0, false, Crc.C16(0), [], [], [], [], []);
    var s, p := Reset(cfg, blank), Zeros(5120);
    ResetBounded(cfg, blank);
    ResetStarts(cfg, blank);
    var bytes := [START1, START2] + Header(cfg, f, 5121) + p + [0];
    var t := Overflows(cfg, 0, s, f, 5121, p, 0);
    EndsAnswers(cfg, 0, s, bytes, t, ErrMem);
    assert Bounded(cfg, s) && ErrMem in Run(cfg, 0, s, bytes).1;
  }

  lemma ResetStarts(cfg: Config, s: State)
    ensures Reset(cfg, s).phase == Start1
  {
    hide Zeros, FreshCrc;
  }

  lemma EndsAnswers(cfg: Config, own: bv8, s: State, bytes: seq<bv8>, t: State, r: Ret)
    requires Ends(cfg, own, s, bytes, t, r)
    ensures r in Run(cfg, own, s, bytes).1
  {
    hide Run;
  }

  // ---- Recovery ----

  // Whatever the line has brought so far, one silent poll after the timeout makes the decoder
  // ready, and the next frame is delivered.
  lemma SilenceRecovers(cfg: Config, own: bv8, s: State, lastRx: bv32, now: bv32, f: Fields, p: seq<bv8>)
    requires Silent(now, lastRx) && Addressed(cfg, own, f) && |p| <= MaxPayload(cfg)
    ensures var t := Poll(cfg, own, s, lastRx, None, now).0;
            Delivers(cfg, own, t, Wire(cfg, f, p), Meant(cfg, f, p), false) && t.nacks == s.nacks
  {
    hide Delivers, Wire, Meant, Addressed, FreshCrc, Zeros, Silent;
    RoundTrip(cfg, own, Poll(cfg, own, s, lastRx, None, now).0, f, p);
  }
}
