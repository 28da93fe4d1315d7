// What the decoder makes of the bytes of a frame.
module Codec {
  import opened Bytes
  import opened Frame
  import opened Decoder
  import Crc
  import Leb128

  // ---- Runs ----

  // The state after the bytes, and the answer to each of them.
  function Run(cfg: Config, own: bv8, s: State, bytes: seq<bv8>): (r: (State, seq<Ret>))
    ensures |r.1| == |bytes|
    decreases |bytes|
  {
    if |bytes| == 0 then (s, []) else
    var (t, r) := Step(cfg, own, s, bytes[0]);
    var (u, rs) := Run(cfg, own, t, bytes[1..]);
    (u, [r] + rs)
  }

  lemma {:induction false} RunAppend(cfg: Config, own: bv8, s: State, a: seq<bv8>, b: seq<bv8>)
    ensures var (t, rs) := Run(cfg, own, s, a);
            var (u, qs) := Run(cfg, own, t, b);
            Run(cfg, own, s, a + b) == (u, rs + qs)
    decreases |a|
  {
    hide Step;
    if |a| == 0 {
      assert a + b == b;
      assert [] + Run(cfg, own, s, b).1 == Run(cfg, own, s, b).1;
    } else {
      assert (a + b)[1..] == a[1..] + b;
      var (t, r) := Step(cfg, own, s, a[0]);
      RunAppend(cfg, own, t, a[1..], b);
      var (u, rs) := Run(cfg, own, t, a[1..]);
      var qs := Run(cfg, own, u, b).1;
      assert [r] + (rs + qs) == [r] + rs + qs;
    }
  }

  // The bytes take the decoder from s to t inside one frame: every answer is "in progress".
  ghost predicate Quiet(cfg: Config, own: bv8, s: State, bytes: seq<bv8>, t: State) {
    var (u, rs) := Run(cfg, own, s, bytes);
    u == t && forall r :: r in rs ==> r == InProg
  }

  lemma QuietAppend(cfg: Config, own: bv8, s: State, a: seq<bv8>, t: State, b: seq<bv8>, u: State)
    requires Quiet(cfg, own, s, a, t) && Quiet(cfg, own, t, b, u)
    ensures Quiet(cfg, own, s, a + b, u)
  {
    hide Run;
    RunAppend(cfg, own, s, a, b);
  }

  lemma QuietNone(cfg: Config, own: bv8, s: State)
    ensures Quiet(cfg, own, s, [], s)
  {
  }

  lemma QuietStep(cfg: Config, own: bv8, s: State, b: bv8)
    requires Step(cfg, own, s, b).1 == InProg
    ensures Quiet(cfg, own, s, [b], Step(cfg, own, s, b).0)
  {
    hide Step;
    assert [b][1..] == [];
    assert Run(cfg, own, Step(cfg, own, s, b).0, []) == (Step(cfg, own, s, b).0, []);
  }

  // The same, but the last byte is answered with r.
  ghost predicate Ends(cfg: Config, own: bv8, s: State, bytes: seq<bv8>, t: State, r: Ret) {
    var (u, rs) := Run(cfg, own, s, bytes);
    |bytes| > 0 && u == t && rs[|bytes| - 1] == r && forall i :: 0 <= i < |bytes| - 1 ==> rs[i] == InProg
  }

  lemma EndsStep(cfg: Config, own: bv8, s: State, b: bv8, t: State, r: Ret)
    requires Step(cfg, own, s, b) == (t, r)
    ensures Ends(cfg, own, s, [b], t, r)
  {
    hide Step;
    assert [b][1..] == [];
    assert Run(cfg, own, t, []) == (t, []);
  }

  lemma EndsAppend(cfg: Config, own: bv8, s: State, a: seq<bv8>, t: State, b: seq<bv8>, u: State, r: Ret)
    requires Quiet(cfg, own, s, a, t) && Ends(cfg, own, t, b, u, r)
    ensures Ends(cfg, own, s, a + b, u, r)
  {
    hide Run;
    RunAppend(cfg, own, s, a, b);
    var rs := Run(cfg, own, s, a).1;
    assert forall i :: 0 <= i < |rs| ==> rs[i] in rs;
  }

  // An ending that is itself "in progress" is quiet.
  lemma EndsQuietly(cfg: Config, own: bv8, s: State, bytes: seq<bv8>, t: State)
    requires Ends(cfg, own, s, bytes, t, InProg)
    ensures Quiet(cfg, own, s, bytes, t)
  {
    hide Run;
    var rs := Run(cfg, own, s, bytes).1;
    assert forall i :: 0 <= i < |rs| ==> rs[i] == InProg;
  }

  // ---- The header, field by field ----

  // The decoder has read the header bytes h so far.
  ghost predicate Read(cfg: Config, s: State, h: seq<bv8>) {
    && s.crc == CrcOf(cfg, h)
    && s.hdr == Clip(h)
  }

  function CrcOf(cfg: Config, h: seq<bv8>): Crc.State {
    if cfg.crc.Some? then Crc.UpdateAll(Crc.Init(cfg.crc.value), h) else Crc.C16(0)
  }

  lemma HdrByteReads(cfg: Config, s: State, h: seq<bv8>, b: bv8)
    requires Read(cfg, s, h)
    ensures HdrByte(cfg, s, b) == s.(crc := CrcOf(cfg, h + [b]), hdr := Clip(h + [b]))
  {
    hide Crc.UpdateAll, Crc.Update;
    if cfg.crc.Some? {
      Crc.UpdateAllSnoc(Crc.Init(cfg.crc.value), h, b);
    }
  }

  // s with the header bytes h read, its fields otherwise as given.
  function Having(cfg: Config, s: State, h: seq<bv8>, p: Phase): State {
    Go(s.(crc := CrcOf(cfg, h), hdr := Clip(h)), p)
  }

  function Begun(cfg: Config, s: State): State {
    Having(cfg, Reset(cfg, s), [], TypeMethod)
  }

  lemma StartBytes(cfg: Config, own: bv8, s: State, b: bv8)
    requires s.phase == Start1 && IsStart1(b)
    ensures Quiet(cfg, own, s, [b, START2], Begun(cfg, s))
  {
    hide HdrByte, IsStart1, Crc.UpdateAll, StepHeader, StepSeg, StepBody, StepCrc, StepMac, StepStop;
    QuietStep(cfg, own, s, b);
    var t := Go(Reset(cfg, s), Start2);
    QuietStep(cfg, own, t, START2);
    QuietAppend(cfg, own, s, [b], t, [START2], Go(t, TypeMethod));
    assert [b] + [START2] == [b, START2];
    EmptyHeader(cfg);
  }

  lemma EmptyHeader(cfg: Config)
    ensures CrcOf(cfg, []) == FreshCrc(cfg) && Clip([]) == []
  {
  }

  function NextAfterTypeMethod(cfg: Config): Phase {
    if cfg.target then Phase.Src else IdLow
  }

  function NextAfterIds(cfg: Config): Phase {
    if cfg.arq then Seq else NextAfterSeq(cfg)
  }

  function NextAfterSeq(cfg: Config): Phase {
    if cfg.seg then SegStream else LenLow
  }

  function NextAfterLength(cfg: Config, n: nat): Phase {
    if n > 0 then Data else NextAfterData(cfg)
  }

  function NextAfterData(cfg: Config): Phase {
    if cfg.ecc then Ecc0 else NextAfterEcc(cfg)
  }

  function NextAfterEcc(cfg: Config): Phase {
    if cfg.crc.Some? then Crc1 else NextAfterCrc(cfg)
  }

  function NextAfterCrc(cfg: Config): Phase {
    if cfg.hmac then Mac1 else Stop1
  }

  // One header byte: if the step only records the byte in t and moves on, so it does here.
  lemma HeaderByte(cfg: Config, own: bv8, s: State, h: seq<bv8>, p: Phase, b: bv8, t: State, q: Phase)
    requires q != Start1 && Step(cfg, own, Having(cfg, s, h, p), b) == Plain(Go(HdrByte(cfg, Having(cfg, t, h, p), b), q))
    ensures Quiet(cfg, own, Having(cfg, s, h, p), [b], Having(cfg, t, h + [b], q))
  {
    hide Step, HdrByte, CrcOf, Clip, Quiet;
    HdrByteReads(cfg, Having(cfg, t, h, p), h, b);
    QuietStep(cfg, own, Having(cfg, s, h, p), b);
  }

  lemma TypeMethodByte(cfg: Config, own: bv8, s: State)
    ensures var h := [Frame.TypeMethod(cfg)];
            Quiet(cfg, own, Having(cfg, s, [], TypeMethod), h, Having(cfg, s, h, NextAfterTypeMethod(cfg)))
  {
    hide CrcOf, Clip, Frame.TypeMethod, HdrByte, Quiet;
    HeaderByte(cfg, own, s, [], TypeMethod, Frame.TypeMethod(cfg), s, NextAfterTypeMethod(cfg));
    assert [] + [Frame.TypeMethod(cfg)] == [Frame.TypeMethod(cfg)];
  }

  lemma SrcByte(cfg: Config, own: bv8, s: State, h: seq<bv8>, b: bv8)
    requires cfg.target
    ensures Quiet(cfg, own, Having(cfg, s, h, Phase.Src), [b], Having(cfg, s.(src := b), h + [b], Dst))
  {
    hide CrcOf, Clip, HdrByte, Quiet;
    HeaderByte(cfg, own, s, h, Phase.Src, b, s.(src := b), Dst);
  }

  lemma DstByte(cfg: Config, own: bv8, s: State, h: seq<bv8>, b: bv8)
    requires cfg.target && (b == own || b == BROADCAST)
    ensures Quiet(cfg, own, Having(cfg, s, h, Dst), [b], Having(cfg, s, h + [b], IdLow))
  {
    hide CrcOf, Clip, HdrByte, Quiet;
    HeaderByte(cfg, own, s, h, Dst, b, s, IdLow);
  }

  lemma IdLowByte(cfg: Config, own: bv8, s: State, h: seq<bv8>, b: bv8)
    ensures Quiet(cfg, own, Having(cfg, s, h, IdLow), [b], Having(cfg, s.(id := FromLow(b)), h + [b], IdHigh))
  {
    hide CrcOf, Clip, HdrByte, Quiet, FromLow;
    HeaderByte(cfg, own, s, h, IdLow, b, s.(id := FromLow(b)), IdHigh);
  }

  lemma IdHighByte(cfg: Config, own: bv8, s: State, h: seq<bv8>, b: bv8)
    ensures Quiet(cfg, own, Having(cfg, s, h, IdHigh), [b],
                  Having(cfg, s.(id := WithHigh(s.id, b)), h + [b], NextAfterIds(cfg)))
  {
    hide CrcOf, Clip, HdrByte, Quiet, WithHigh;
    HeaderByte(cfg, own, s, h, IdHigh, b, s.(id := WithHigh(s.id, b)), NextAfterIds(cfg));
  }

  lemma SeqByte(cfg: Config, own: bv8, s: State, h: seq<bv8>, b: bv8)
    requires cfg.arq
    ensures Quiet(cfg, own, Having(cfg, s, h, Seq), [b], Having(cfg, s.(seqByte := b), h + [b], NextAfterSeq(cfg)))
  {
    hide CrcOf, Clip, HdrByte, Quiet;
    HeaderByte(cfg, own, s, h, Seq, b, s.(seqByte := b), NextAfterSeq(cfg));
  }

  lemma StreamByte(cfg: Config, own: bv8, s: State, h: seq<bv8>, b: bv8)
    requires cfg.seg
    ensures Quiet(cfg, own, Having(cfg, s, h, SegStream), [b],
                  Having(cfg, s.(stream := b, idx := 0, total := 0, shift := 0), h + [b], SegIdx))
  {
    hide CrcOf, Clip, HdrByte, Quiet;
    HeaderByte(cfg, own, s, h, SegStream, b, s.(stream := b, idx := 0, total := 0, shift := 0), SegIdx);
  }

  lemma IdxByte(cfg: Config, own: bv8, s: State, h: seq<bv8>, b: bv8)
    requires cfg.seg
    ensures var a := Leb128.Absorb(Leb128.Acc(s.idx, s.shift), b);
            Quiet(cfg, own, Having(cfg, s, h, SegIdx), [b],
                  if Leb128.Last(b) then Having(cfg, s.(idx := a.value, shift := 0), h + [b], SegTotal)
                  else Having(cfg, s.(idx := a.value, shift := a.shift), h + [b], SegIdx))
  {
    hide CrcOf, Clip, HdrByte, Quiet, Leb128.Absorb, Leb128.Last;
    var a := Leb128.Absorb(Leb128.Acc(s.idx, s.shift), b);
    if Leb128.Last(b) {
      HeaderByte(cfg, own, s, h, SegIdx, b, s.(idx := a.value, shift := 0), SegTotal);
    } else {
      HdrByteStays(cfg, Having(cfg, s.(idx := a.value, shift := a.shift), h, SegIdx), b);
      HeaderByte(cfg, own, s, h, SegIdx, b, s.(idx := a.value, shift := a.shift), SegIdx);
    }
  }

  lemma TotalByte(cfg: Config, own: bv8, s: State, h: seq<bv8>, b: bv8)
    requires cfg.seg
    ensures var a := Leb128.Absorb(Leb128.Acc(s.total, s.shift), b);
            Quiet(cfg, own, Having(cfg, s, h, SegTotal), [b],
                  Having(cfg, s.(total := a.value, shift := a.shift), h + [b], if Leb128.Last(b) then LenLow else SegTotal))
  {
    hide CrcOf, Clip, HdrByte, Quiet, Leb128.Absorb, Leb128.Last;
    var a := Leb128.Absorb(Leb128.Acc(s.total, s.shift), b);
    var t := s.(total := a.value, shift := a.shift);
    if Leb128.Last(b) {
      HeaderByte(cfg, own, s, h, SegTotal, b, t, LenLow);
    } else {
      HdrByteStays(cfg, Having(cfg, t, h, SegTotal), b);
      HeaderByte(cfg, own, s, h, SegTotal, b, t, SegTotal);
    }
  }

  // Recording a byte at the start of a field leaves the field where it is.
  lemma HdrByteStays(cfg: Config, s: State, b: bv8)
    requires s.index == 0
    ensures Go(HdrByte(cfg, s, b), s.phase) == HdrByte(cfg, s, b)
  {
    hide CrcFeed;
  }

  lemma LenLowByte(cfg: Config, own: bv8, s: State, h: seq<bv8>, b: bv8)
    ensures Quiet(cfg, own, Having(cfg, s, h, LenLow), [b],
                  Having(cfg, s.(length := ToNat(b)), h + [b], if cfg.len16 then LenHigh else NextAfterLength(cfg, ToNat(b))))
  {
    hide CrcOf, Clip, HdrByte, Quiet, ToNat, AfterLength, NextAfterLength;
    HdrByteLength(cfg, Having(cfg, s.(length := ToNat(b)), h, LenLow), b);
    AfterLengthIs(cfg, HdrByte(cfg, Having(cfg, s.(length := ToNat(b)), h, LenLow), b));
    HeaderByte(cfg, own, s, h, LenLow, b, s.(length := ToNat(b)), if cfg.len16 then LenHigh else NextAfterLength(cfg, ToNat(b)));
  }

  lemma LenHighByte(cfg: Config, own: bv8, s: State, h: seq<bv8>, b: bv8)
    requires cfg.len16
    ensures var n := s.length + 256 * ToNat(b);
            Quiet(cfg, own, Having(cfg, s, h, LenHigh), [b], Having(cfg, s.(length := n), h + [b], NextAfterLength(cfg, n)))
  {
    hide CrcOf, Clip, HdrByte, Quiet, ToNat, AfterLength, NextAfterLength;
    var n := s.length + 256 * ToNat(b);
    HdrByteLength(cfg, Having(cfg, s.(length := n), h, LenHigh), b);
    AfterLengthIs(cfg, HdrByte(cfg, Having(cfg, s.(length := n), h, LenHigh), b));
    HeaderByte(cfg, own, s, h, LenHigh, b, s.(length := n), NextAfterLength(cfg, n));
  }

  lemma AfterLengthIs(cfg: Config, s: State)
    ensures AfterLength(cfg, s) == Go(s, NextAfterLength(cfg, s.length)) && NextAfterLength(cfg, s.length) != Start1
  {
  }

  lemma HdrByteLength(cfg: Config, s: State, b: bv8)
    ensures HdrByte(cfg, s, b).length == s.length
  {
    hide CrcFeed;
  }

  // ---- Whole header fields ----

  lemma AddressBytes(cfg: Config, own: bv8, s: State, h: seq<bv8>, f: Fields)
    requires cfg.target && (f.dst == own || f.dst == BROADCAST)
    ensures Quiet(cfg, own, Having(cfg, s, h, Phase.Src), [f.src, f.dst],
                  Having(cfg, s.(src := f.src), h + [f.src, f.dst], IdLow))
  {
    hide Quiet, Having;
    var s' := s.(src := f.src);
    SrcByte(cfg, own, s, h, f.src);
    DstByte(cfg, own, s', h + [f.src], f.dst);
    assert h + [f.src] + [f.dst] == h + [f.src, f.dst] && [f.src] + [f.dst] == [f.src, f.dst];
    QuietAppend(cfg, own, Having(cfg, s, h, Phase.Src), [f.src], Having(cfg, s', h + [f.src], Dst), [f.dst],
                Having(cfg, s', h + [f.src, f.dst], IdLow));
  }

  lemma IdBytes(cfg: Config, own: bv8, s: State, h: seq<bv8>, id: bv16)
    ensures Quiet(cfg, own, Having(cfg, s, h, IdLow), [Low16(id), High16(id)],
                  Having(cfg, s.(id := id), h + [Low16(id), High16(id)], NextAfterIds(cfg)))
  {
    hide Quiet, Having, Low16, High16, FromLow, WithHigh;
    var a, b := Low16(id), High16(id);
    var s' := s.(id := FromLow(a));
    IdLowByte(cfg, own, s, h, a);
    IdHighByte(cfg, own, s', h + [a], b);
    WordRoundTrip(id);
    assert h + [a] + [b] == h + [a, b] && [a] + [b] == [a, b];
    QuietAppend(cfg, own, Having(cfg, s, h, IdLow), [a], Having(cfg, s', h + [a], IdHigh), [b],
                Having(cfg, s.(id := id), h + [a, b], NextAfterIds(cfg)));
  }

  // A chunk number is read up to its last byte, whatever its length.
  ghost predicate Number(e: seq<bv8>) {
    |e| > 0 && Leb128.Last(e[|e| - 1]) && forall i :: 0 <= i < |e| - 1 ==> !Leb128.Last(e[i])
  }

  lemma {:induction false} IdxBytes(cfg: Config, own: bv8, s: State, h: seq<bv8>, e: seq<bv8>)
    requires cfg.seg && Number(e)
    ensures var a := Leb128.AbsorbAll(Leb128.Acc(s.idx, s.shift), e);
            Quiet(cfg, own, Having(cfg, s, h, SegIdx), e, Having(cfg, s.(idx := a.value, shift := 0), h + e, SegTotal))
    decreases |e|
  {
    hide Quiet, Having, Leb128.Absorb, Leb128.Last;
    var a := Leb128.Absorb(Leb128.Acc(s.idx, s.shift), e[0]);
    IdxByte(cfg, own, s, h, e[0]);
    if |e| == 1 {
      assert e == [e[0]] && e[1..] == [];
    } else {
      var s' := s.(idx := a.value, shift := a.shift);
      IdxBytes(cfg, own, s', h + [e[0]], e[1..]);
      assert h + [e[0]] + e[1..] == h + e && [e[0]] + e[1..] == e;
      QuietAppend(cfg, own, Having(cfg, s, h, SegIdx), [e[0]], Having(cfg, s', h + [e[0]], SegIdx), e[1..],
                  Having(cfg, s.(idx := Leb128.AbsorbAll(a, e[1..]).value, shift := 0), h + e, SegTotal));
    }
  }

  lemma {:induction false} TotalBytes(cfg: Config, own: bv8, s: State, h: seq<bv8>, e: seq<bv8>)
    requires cfg.seg && Number(e)
    ensures var a := Leb128.AbsorbAll(Leb128.Acc(s.total, s.shift), e);
            Quiet(cfg, own, Having(cfg, s, h, SegTotal), e,
                  Having(cfg, s.(total := a.value, shift := a.shift), h + e, LenLow))
    decreases |e|
  {
    hide Quiet, Having, Leb128.Absorb, Leb128.Last;
    var a := Leb128.Absorb(Leb128.Acc(s.total, s.shift), e[0]);
    var s' := s.(total := a.value, shift := a.shift);
    TotalByte(cfg, own, s, h, e[0]);
    if |e| == 1 {
      assert e == [e[0]] && e[1..] == [];
    } else {
      TotalBytes(cfg, own, s', h + [e[0]], e[1..]);
      assert h + [e[0]] + e[1..] == h + e && [e[0]] + e[1..] == e;
      var b := Leb128.AbsorbAll(a, e[1..]);
      QuietAppend(cfg, own, Having(cfg, s, h, SegTotal), [e[0]], Having(cfg, s', h + [e[0]], SegTotal), e[1..],
                  Having(cfg, s.(total := b.value, shift := b.shift), h + e, LenLow));
    }
  }

  function Idx(f: Fields): bv32 {
    Leb128.AbsorbAll(Leb128.START, Leb128.Encode(f.idx)).value
  }

  function Total(f: Fields): Leb128.Acc {
    Leb128.AbsorbAll(Leb128.START, Leb128.Encode(f.total))
  }

  function WithSeg(s: State, f: Fields): State {
    s.(stream := f.stream, idx := Idx(f), total := Total(f).value, shift := Total(f).shift)
  }

  lemma SegBytes(cfg: Config, own: bv8, s: State, h: seq<bv8>, f: Fields)
    requires cfg.seg
    ensures Quiet(cfg, own, Having(cfg, s, h, SegStream), SegHeader(f), Having(cfg, WithSeg(s, f), h + SegHeader(f), LenLow))
  {
    hide Quiet, Having, Leb128.Absorb, Leb128.Last, Leb128.Encode, Leb128.AbsorbAll;
    var e1, e2 := Leb128.Encode(f.idx), Leb128.Encode(f.total);
    Leb128.EncodeEnds(f.idx);
    Leb128.EncodeEnds(f.total);
    var s1 := s.(stream := f.stream, idx := 0, total := 0, shift := 0);
    var s2 := s1.(idx := Idx(f));
    var h1 := h + [f.stream];
    var t0, t1, t2 := Having(cfg, s, h, SegStream), Having(cfg, s1, h1, SegIdx), Having(cfg, s2, h1 + e1, SegTotal);
    StreamByte(cfg, own, s, h, f.stream);
    IdxBytes(cfg, own, s1, h1, e1);
    QuietAppend(cfg, own, t0, [f.stream], t1, e1, t2);
    TotalBytes(cfg, own, s2, h1 + e1, e2);
    assert h1 + e1 + e2 == h + SegHeader(f);
    QuietAppend(cfg, own, t0, [f.stream] + e1, t2, e2, Having(cfg, WithSeg(s, f), h + SegHeader(f), LenLow));
  }

  lemma LengthBytes(cfg: Config, own: bv8, s: State, h: seq<bv8>, n: nat)
    requires n < 0x1_0000 && (!cfg.len16 ==> n < 256)
    ensures Quiet(cfg, own, Having(cfg, s, h, LenLow), LengthField(cfg, n),
                  Having(cfg, s.(length := n), h + LengthField(cfg, n), NextAfterLength(cfg, n)))
  {
    hide Quiet, Having, LowByte, HighByte, ToNat;
    var a := LowByte(n);
    LengthRoundTrip(n);
    LenLowByte(cfg, own, s, h, a);
    if cfg.len16 {
      var b, s' := HighByte(n), s.(length := ToNat(a));
      LenHighByte(cfg, own, s', h + [a], b);
      assert h + [a] + [b] == h + LengthField(cfg, n);
      QuietAppend(cfg, own, Having(cfg, s, h, LenLow), [a], Having(cfg, s', h + [a], LenHigh), [b],
                  Having(cfg, s.(length := n), h + LengthField(cfg, n), NextAfterLength(cfg, n)));
    } else {
      assert LengthField(cfg, n) == [a];
    }
  }

  // What the header leaves in the decoder's fields; a field that is not compiled in stays 0.
  function Parsed(cfg: Config, s: State, f: Fields, n: nat): State {
    var s1 := s.(id := f.id, length := n);
    var s2 := if cfg.target then s1.(src := f.src) else s1;
    var s3 := if cfg.arq then s2.(seqByte := f.seqByte) else s2;
    if cfg.seg then WithSeg(s3, f) else s3
  }

  predicate Addressed(cfg: Config, own: bv8, f: Fields) {
    cfg.target ==> f.dst == own || f.dst == 0xFF
  }

  lemma HeaderBytes(cfg: Config, own: bv8, s: State, f: Fields, n: nat)
    requires n < 0x1_0000 && (!cfg.len16 ==> n < 256) && Addressed(cfg, own, f)
    ensures Quiet(cfg, own, Having(cfg, s, [], TypeMethod), Header(cfg, f, n),
                  Having(cfg, Parsed(cfg, s, f, n), Header(cfg, f, n), NextAfterLength(cfg, n)))
  {
    hide Quiet, Having, Frame.TypeMethod, Low16, High16, LengthField, SegHeader, WithSeg, When;
    var t0 := Having(cfg, s, [], TypeMethod);
    var h1 := [Frame.TypeMethod(cfg)];
    TypeMethodByte(cfg, own, s);
    var h2 := h1 + When(cfg.target, [f.src, f.dst]);
    var s2 := if cfg.target then s.(src := f.src) else s;
    MaybeAddress(cfg, own, s, h1, f);
    QuietAppend(cfg, own, t0, h1, Having(cfg, s, h1, NextAfterTypeMethod(cfg)), When(cfg.target, [f.src, f.dst]),
                Having(cfg, s2, h2, IdLow));
    var ids := [Low16(f.id), High16(f.id)];
    var h3, s3 := h2 + ids, s2.(id := f.id);
    IdBytes(cfg, own, s2, h2, f.id);
    QuietAppend(cfg, own, t0, h2, Having(cfg, s2, h2, IdLow), ids, Having(cfg, s3, h3, NextAfterIds(cfg)));
    var h4 := h3 + When(cfg.arq, [f.seqByte]);
    var s4 := if cfg.arq then s3.(seqByte := f.seqByte) else s3;
    MaybeSeq(cfg, own, s3, h3, f);
    QuietAppend(cfg, own, t0, h3, Having(cfg, s3, h3, NextAfterIds(cfg)), When(cfg.arq, [f.seqByte]),
                Having(cfg, s4, h4, NextAfterSeq(cfg)));
    var h5 := h4 + When(cfg.seg, SegHeader(f));
    var s5 := if cfg.seg then WithSeg(s4, f) else s4;
    MaybeSeg(cfg, own, s4, h4, f);
    QuietAppend(cfg, own, t0, h4, Having(cfg, s4, h4, NextAfterSeq(cfg)), When(cfg.seg, SegHeader(f)),
                Having(cfg, s5, h5, LenLow));
    LengthBytes(cfg, own, s5, h5, n);
    QuietAppend(cfg, own, t0, h5, Having(cfg, s5, h5, LenLow), LengthField(cfg, n),
                Having(cfg, s5.(length := n), h5 + LengthField(cfg, n), NextAfterLength(cfg, n)));
    ParsedInOrder(cfg, s, f, n);
  }

  lemma ParsedInOrder(cfg: Config, s: State, f: Fields, n: nat)
    ensures var s2 := if cfg.target then s.(src := f.src) else s;
            var s3 := s2.(id := f.id);
            var s4 := if cfg.arq then s3.(seqByte := f.seqByte) else s3;
            var s5 := if cfg.seg then WithSeg(s4, f) else s4;
            s5.(length := n) == Parsed(cfg, s, f, n)
  {
    hide Idx, Total;
  }

  lemma MaybeAddress(cfg: Config, own: bv8, s: State, h: seq<bv8>, f: Fields)
    requires Addressed(cfg, own, f)
    ensures Quiet(cfg, own, Having(cfg, s, h, NextAfterTypeMethod(cfg)), When(cfg.target, [f.src, f.dst]),
                  Having(cfg, if cfg.target then s.(src := f.src) else s, h + When(cfg.target, [f.src, f.dst]), IdLow))
  {
    hide Quiet, Having;
    assert h + [] == h;
    if cfg.target {
      AddressBytes(cfg, own, s, h, f);
    } else {
      QuietNone(cfg, own, Having(cfg, s, h, IdLow));
    }
  }

  lemma MaybeSeq(cfg: Config, own: bv8, s: State, h: seq<bv8>, f: Fields)
    ensures Quiet(cfg, own, Having(cfg, s, h, NextAfterIds(cfg)), When(cfg.arq, [f.seqByte]),
                  Having(cfg, if cfg.arq then s.(seqByte := f.seqByte) else s, h + When(cfg.arq, [f.seqByte]), NextAfterSeq(cfg)))
  {
    hide Quiet, Having;
    assert h + [] == h;
    if cfg.arq {
      SeqByte(cfg, own, s, h, f.seqByte);
    } else {
      QuietNone(cfg, own, Having(cfg, s, h, NextAfterSeq(cfg)));
    }
  }

  lemma MaybeSeg(cfg: Config, own: bv8, s: State, h: seq<bv8>, f: Fields)
    ensures Quiet(cfg, own, Having(cfg, s, h, NextAfterSeq(cfg)), When(cfg.seg, SegHeader(f)),
                  Having(cfg, if cfg.seg then WithSeg(s, f) else s, h + When(cfg.seg, SegHeader(f)), LenLow))
  {
    hide Quiet, Having, SegHeader, WithSeg;
    assert h + [] == h;
    if cfg.seg {
      SegBytes(cfg, own, s, h, f);
    } else {
      QuietNone(cfg, own, Having(cfg, s, h, LenLow));
    }
  }
}
