// The byte-at-a-time xTP frame decoder.
module Decoder {
  import opened Bytes
  import opened Frame
  import opened Wrappers
  import Crc
  import Ecc
  import Leb128
  import SipHash

  datatype Phase =
    | Start1 | Start2 | TypeMethod | Src | Dst | IdLow | IdHigh | Seq | SegStream | SegIdx | SegTotal | LenLow | LenHigh
    | Data | Ecc0 | Ecc1 | Crc1 | Crc2 | Crc3 | Crc4 | Mac1 | Mac2 | Mac3 | Mac4 | Stop1 | Stop2

  datatype Ret = InProg | Valid | WaitData | ErrTypeMethod | ErrAddr | ErrCrc | ErrMem | ErrHmac | ErrStop | ErrTimeout | Err

  // The decoder's fields. The received CRC and tag are kept as the bytes they arrived in.
  datatype State = State(
    phase: Phase, id: bv16, src: bv8, seqByte: bv8, stream: bv8, idx: bv32, total: bv32, shift: bv8,
    length: nat, data: seq<bv8>, index: nat, ecc0: bv8, ecc1: bv8, corrected: bool,
    crc: Crc.State, crcRx: seq<bv8>, hdr: seq<bv8>, check: seq<bv8>, macRx: seq<bv8>,
    nacks: seq<bv8>)  // sequence numbers of the NACK frames sent so far

  function Zeros(n: nat): (z: seq<bv8>)
    ensures |z| == n
  {
    seq(n, i => 0)
  }

  function FreshCrc(cfg: Config): Crc.State {
    if cfg.crc.Some? then Crc.Init(cfg.crc.value) else Crc.C16(0)
  }

  function Reset(cfg: Config, s: State): State {
    State(Start1, 0, 0, 0, 0, 0, 0, 0, 0, Zeros(MaxPayload(cfg)), 0, 0, 0, false, FreshCrc(cfg), [], [], [], [], s.nacks)
  }

  function Go(s: State, p: Phase): State {
    s.(phase := p, index := 0)
  }

  function CrcFeed(cfg: Config, c: Crc.State, b: bv8): Crc.State {
    if cfg.crc.Some? then Crc.Update(c, b) else c
  }

  // A header byte is covered by the CRC and kept for the tag.
  function HdrByte(cfg: Config, s: State, b: bv8): State {
    s.(crc := CrcFeed(cfg, s.crc, b), hdr := if |s.hdr| < 16 then s.hdr + [b] else s.hdr)
  }

  // An ECC byte is covered by the CRC and by the end of the tag.
  function EccByte(cfg: Config, s: State, b: bv8): State {
    s.(crc := CrcFeed(cfg, s.crc, b), check := Six(s.check, b))
  }

  function Six(check: seq<bv8>, b: bv8): seq<bv8> {
    if |check| < 6 then check + [b] else check
  }

  function CrcByte(s: State, b: bv8): State {
    s.(crcRx := s.crcRx + [b], check := Six(s.check, b))
  }

  // ---- Which field comes next ----

  function AfterIds(cfg: Config, s: State): State {
    if cfg.arq then Go(s, Seq) else AfterSeq(cfg, s)
  }

  function AfterSeq(cfg: Config, s: State): State {
    if cfg.seg then Go(s, SegStream) else Go(s, LenLow)
  }

  function AfterLength(cfg: Config, s: State): State {
    if s.length > 0 then Go(s, Data) else AfterData(cfg, s)
  }

  function AfterData(cfg: Config, s: State): State {
    if cfg.ecc then Go(s, Ecc0) else AfterEcc(cfg, s)
  }

  function AfterEcc(cfg: Config, s: State): State {
    if cfg.crc.Some? then Go(s, Crc1) else AfterCrc(cfg, s)
  }

  function AfterCrc(cfg: Config, s: State): State {
    if cfg.hmac then Go(s, Mac1) else Go(s, Stop1)
  }

  // ---- One byte ----

  predicate IsStart1(b: bv8) {
    b & 0xF0 == 0xC0
  }

  // Sixteen bytes start a frame.
  lemma StartNibble(b: bv8)
    ensures IsStart1(b) <==> 0xC0 <= b <= 0xCF
  {
  }

  function SeqNumber(b: bv8): bv8 {
    b & 0x7F
  }

  // States that the build does not compile in.
  predicate Compiled(cfg: Config, p: Phase) {
    match p
    case Src | Dst => cfg.target
    case Seq => cfg.arq
    case SegStream | SegIdx | SegTotal => cfg.seg
    case LenHigh => cfg.len16
    case Ecc0 | Ecc1 => cfg.ecc
    case Crc1 | Crc2 => cfg.crc.Some?
    case Crc3 | Crc4 => cfg.crc == Some(Crc.Kind32)
    case Mac1 | Mac2 | Mac3 | Mac4 => cfg.hmac
    case _ => true
  }

  // The answer of a call that ends without an error.
  function Plain(s: State): (State, Ret) {
    (s, if s.phase == Start1 then WaitData else InProg)
  }

  function Step(cfg: Config, own: bv8, s: State, b: bv8): (State, Ret) {
    if !Compiled(cfg, s.phase) then (Reset(cfg, s), Err) else
    match s.phase
    case Start1 | Start2 | TypeMethod | Src | Dst => StepStart(cfg, own, s, b)
    case IdLow | IdHigh | Seq | LenLow | LenHigh => StepHeader(cfg, s, b)
    case SegStream | SegIdx | SegTotal => StepSeg(cfg, s, b)
    case Data | Ecc0 | Ecc1 => StepBody(cfg, s, b)
    case Crc1 | Crc2 | Crc3 | Crc4 => StepCrc(cfg, s, b)
    case Mac1 | Mac2 | Mac3 | Mac4 => StepMac(cfg, s, b)
    case Stop1 | Stop2 => StepStop(cfg, s, b)
  }

  function StepStart(cfg: Config, own: bv8, s: State, b: bv8): (State, Ret)
    requires s.phase in {Start1, Start2, TypeMethod, Src, Dst}
  {
    match s.phase
    case Start1 => Plain(if IsStart1(b) then Go(Reset(cfg, s), Start2) else s)
    case Start2 => Plain(if b == START2 then Go(s, TypeMethod) else Reset(cfg, s))
    case TypeMethod =>
      if b != Frame.TypeMethod(cfg) then (Reset(cfg, s), ErrTypeMethod)
      else Plain(Go(HdrByte(cfg, s, b), if cfg.target then Src else IdLow))
    case Src => Plain(Go(HdrByte(cfg, s.(src := b), b), Dst))
    case Dst =>
      if b != own && b != BROADCAST then (Reset(cfg, s), ErrAddr)
      else Plain(Go(HdrByte(cfg, s, b), IdLow))
  }

  function StepHeader(cfg: Config, s: State, b: bv8): (State, Ret)
    requires s.phase in {IdLow, IdHigh, Seq, LenLow, LenHigh}
  {
    match s.phase
    case IdLow => Plain(Go(HdrByte(cfg, s.(id := FromLow(b)), b), IdHigh))
    case IdHigh => Plain(AfterIds(cfg, HdrByte(cfg, s.(id := WithHigh(s.id, b)), b)))
    case Seq => Plain(AfterSeq(cfg, HdrByte(cfg, s.(seqByte := b), b)))
    case LenLow =>
      var t := HdrByte(cfg, s.(length := ToNat(b)), b);
      Plain(if cfg.len16 then Go(t, LenHigh) else AfterLength(cfg, t))
    case LenHigh => Plain(AfterLength(cfg, HdrByte(cfg, s.(length := s.length + 256 * ToNat(b)), b)))
  }

  function StepSeg(cfg: Config, s: State, b: bv8): (State, Ret)
    requires s.phase in {SegStream, SegIdx, SegTotal}
  {
    match s.phase
    case SegStream => Plain(Go(HdrByte(cfg, s.(stream := b, idx := 0, total := 0, shift := 0), b), SegIdx))
    case SegIdx =>
      var a := Leb128.Absorb(Leb128.Acc(s.idx, s.shift), b);
      if Leb128.Last(b) then Plain(Go(HdrByte(cfg, s.(idx := a.value, shift := 0), b), SegTotal))
      else Plain(HdrByte(cfg, s.(idx := a.value, shift := a.shift), b))
    case SegTotal =>
      var a := Leb128.Absorb(Leb128.Acc(s.total, s.shift), b);
      var t := HdrByte(cfg, s.(total := a.value, shift := a.shift), b);
      Plain(if Leb128.Last(b) then Go(t, LenLow) else t)
  }

  function StepBody(cfg: Config, s: State, b: bv8): (State, Ret)
    requires s.phase in {Data, Ecc0, Ecc1}
  {
    match s.phase
    case Data =>
      if s.index >= |s.data| then (Reset(cfg, s), ErrMem) else
      var t := s.(data := s.data[s.index := b], index := s.index + 1, crc := CrcFeed(cfg, s.crc, b));
      Plain(if t.index == t.length then AfterData(cfg, t) else t)
    case Ecc0 => Plain(Go(EccByte(cfg, s.(ecc0 := b), b), Ecc1))
    case Ecc1 => Plain(AfterEcc(cfg, EccByte(cfg, s.(ecc1 := b), b)))
  }

  function StepCrc(cfg: Config, s: State, b: bv8): (State, Ret)
    requires s.phase in {Crc1, Crc2, Crc3, Crc4}
  {
    match s.phase
    case Crc1 => Plain(Go(CrcByte(s.(crcRx := []), b), Crc2))
    case Crc2 => if cfg.crc == Some(Crc.Kind32) then Plain(Go(CrcByte(s, b), Crc3)) else CheckCrc(cfg, CrcByte(s, b))
    case Crc3 => Plain(Go(CrcByte(s, b), Crc4))
    case Crc4 => CheckCrc(cfg, CrcByte(s, b))
  }

  function StepMac(cfg: Config, s: State, b: bv8): (State, Ret)
    requires s.phase in {Mac1, Mac2, Mac3, Mac4}
  {
    match s.phase
    case Mac1 => Plain(Go(s.(macRx := [b]), Mac2))
    case Mac2 => Plain(Go(s.(macRx := s.macRx + [b]), Mac3))
    case Mac3 => Plain(Go(s.(macRx := s.macRx + [b]), Mac4))
    case Mac4 => CheckTag(cfg, s.(macRx := s.macRx + [b]))
  }

  function StepStop(cfg: Config, s: State, b: bv8): (State, Ret)
    requires s.phase in {Stop1, Stop2}
  {
    match s.phase
    case Stop1 => if b == STOP1 then Plain(Go(s, Stop2)) else (Reset(cfg, s), ErrStop)
    case Stop2 => if b == STOP2 then (Go(s, Start1), Valid) else (Reset(cfg, s), ErrStop)
  }

  // All CRC bytes are in. On a mismatch one repair is tried; the repaired block is not
  // checked against the CRC again.
  function CheckCrc(cfg: Config, s: State): (State, Ret) {
    if s.crcRx == Crc.Bytes(s.crc) then Plain(AfterCrc(cfg, s)) else
    var (res, block) := Repair(cfg, s);
    if res == Ecc.EccCorrected then
      Plain(AfterCrc(cfg, s.(corrected := true, data := block + s.data[|block|..])))
    else
      (Reset(cfg, if cfg.arq then s.(nacks := s.nacks + [SeqNumber(s.seqByte)]) else s), ErrCrc)
  }

  function Repair(cfg: Config, s: State): (r: (Ecc.EccResult, seq<bv8>))
    ensures |r.1| <= |s.data|
  {
    var len := if s.length <= |s.data| then s.length else |s.data|;
    if cfg.ecc then Ecc.Decoded(s.data[..len], s.ecc0, s.ecc1) else (Ecc.EccFailUncorrected, [])
  }

  function CheckTag(cfg: Config, s: State): (State, Ret) {
    if s.macRx != Bytes32(SipHash.Tag(s.hdr + TagData(s) + s.check)) then (Reset(cfg, s), ErrHmac)
    else Plain(Go(s, Stop1))
  }

  function TagData(s: State): seq<bv8> {
    s.data[..if s.length % 256 <= |s.data| then s.length % 256 else |s.data|]
  }

  // ---- One poll ----

  const TIMEOUT_MS: bv32 := 300

  predicate Silent(now: bv32, lastRx: bv32) {
    now - lastRx > TIMEOUT_MS
  }

  // A poll reads at most one byte; when none is there, a frame silent for too long is dropped.
  // The tick counter wraps around.
  function Poll(cfg: Config, own: bv8, s: State, lastRx: bv32, got: Option<bv8>, now: bv32): (State, bv32, Ret) {
    if got.Some? then
      var (t, r) := Step(cfg, own, s, got.value);
      (t, now, r)
    else if s.phase != Start1 && Silent(now, lastRx) then (Reset(cfg, s), now, ErrTimeout)
    else (s, lastRx, WaitData)
  }
}
