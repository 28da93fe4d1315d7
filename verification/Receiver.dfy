// The receiving half of an xTP instance: the decoder's fields, updated in place.
module Receiver {
  import opened Bytes
  import opened Frame
  import opened Wrappers
  import opened Decoder
  import Crc
  import Ecc
  import Leb128
  import SipHash

  class Instance {
    const cfg: Config
    const own: bv8
    const useTable: bool
    var phase: Phase
    var id: bv16
    var src: bv8
    var seqByte: bv8
    var stream: bv8
    var idx: bv32
    var total: bv32
    var shift: bv8
    var length: nat
    const data: array<bv8>
    var index: nat
    var ecc0: bv8
    var ecc1: bv8
    var corrected: bool
    const crc: Crc.Context
    var crcRx: seq<bv8>
    var hdr: seq<bv8>
    var check: seq<bv8>
    var macRx: seq<bv8>
    var nacks: seq<bv8>
    var lastRx: bv32  // survives a reset

    ghost predicate Valid()
      reads this
    {
      ValidConfig(cfg) && data.Length == MaxPayload(cfg) && (!cfg.len16 ==> length < 256)
    }

    // The fields as a value.
    ghost function Abstract(): State
      reads this, data, crc
    {
      State(phase, id, src, seqByte, stream, idx, total, shift, length, data[..], index, ecc0, ecc1, corrected,
            crc.current, crcRx, hdr, check, macRx, nacks)
    }

    constructor (cfg: Config, own: bv8, useTable: bool)
      requires ValidConfig(cfg)
      ensures Valid() && fresh(data) && fresh(crc)
      ensures this.cfg == cfg && this.own == own && nacks == []
      ensures Abstract() == Decoder.Reset(cfg, Abstract())
    {
      this.cfg, this.own, this.useTable := cfg, own, useTable;
      data := new bv8[MaxPayload(cfg)];
      crc := new Crc.Context(Crc.Kind16);
      length, nacks := 0, [];
      new;
      Reset();
    }

    method ClearData()
      requires Valid()
      modifies data
      ensures Abstract() == old(Abstract()).(data := Zeros(MaxPayload(cfg)))
    {
      var i := 0;
      while i < data.Length
        invariant 0 <= i <= data.Length
        invariant forall j :: 0 <= j < i ==> data[j] == 0
      {
        data[i] := 0;
        i := i + 1;
      }
      assert data[..] == Zeros(MaxPayload(cfg));
    }

    method RestartCrc()
      modifies crc
      ensures Abstract() == old(Abstract()).(crc := FreshCrc(cfg))
    {
      crc.Restart(if cfg.crc.Some? then cfg.crc.value else Crc.Kind16);
    }

    method ClearIds()
      modifies this`id, this`src
      ensures Abstract() == old(Abstract()).(id := 0, src := 0)
    {
      id, src := 0, 0;
    }

    method ClearSeqLength()
      modifies this`seqByte, this`length
      ensures length == 0 && Abstract() == old(Abstract()).(seqByte := 0, length := 0)
    {
      seqByte, length := 0, 0;
    }

    method ClearChunk()
      modifies this`stream, this`shift
      ensures Abstract() == old(Abstract()).(stream := 0, shift := 0)
    {
      stream, shift := 0, 0;
    }

    method ClearChunkNumbers()
      modifies this`idx, this`total
      ensures Abstract() == old(Abstract()).(idx := 0, total := 0)
    {
      idx, total := 0, 0;
    }

    method ClearEcc()
      modifies this`ecc0, this`ecc1, this`corrected
      ensures Abstract() == old(Abstract()).(ecc0 := 0, ecc1 := 0, corrected := false)
    {
      ecc0, ecc1, corrected := 0, 0, false;
    }

    method ClearCrcRx()
      modifies this`crcRx, this`hdr
      ensures Abstract() == old(Abstract()).(crcRx := [], hdr := [])
    {
      crcRx, hdr := [], [];
    }

    method ClearTag()
      modifies this`check, this`macRx
      ensures Abstract() == old(Abstract()).(check := [], macRx := [])
    {
      check, macRx := [], [];
    }

    method Reset()
      requires Valid()
      modifies this, data, crc
      ensures Valid() && Abstract() == Decoder.Reset(cfg, old(Abstract())) && lastRx == old(lastRx)
    {
      hide Abstract, Zeros, FreshCrc;
      ClearData();
      ClearIds();
      ClearSeqLength();
      ClearChunk();
      ClearChunkNumbers();
      ClearEcc();
      ClearCrcRx();
      ClearTag();
      RestartCrc();
      Go(Start1);
    }

    method Go(p: Phase)
      modifies this`phase, this`index
      ensures Abstract() == Decoder.Go(old(Abstract()), p)
    {
      phase, index := p, 0;
    }

    method HdrByte(b: bv8)
      modifies this`hdr, crc
      ensures Abstract() == Decoder.HdrByte(cfg, old(Abstract()), b)
    {
      hide Crc.Update;
      if cfg.crc.Some? {
        crc.Feed(b, useTable);
      }
      if |hdr| < 16 {
        hdr := hdr + [b];
      }
    }

    method EccByte(b: bv8)
      modifies this`check, crc
      ensures Abstract() == Decoder.EccByte(cfg, old(Abstract()), b)
    {
      hide Crc.Update;
      if cfg.crc.Some? {
        crc.Feed(b, useTable);
      }
      if |check| < 6 {
        check := check + [b];
      }
    }

    method CrcByte(b: bv8)
      modifies this`crcRx, this`check
      ensures Abstract() == Decoder.CrcByte(old(Abstract()), b)
    {
      crcRx := crcRx + [b];
      if |check| < 6 {
        check := check + [b];
      }
    }

    // ---- Which field comes next ----

    method AfterIds()
      modifies this`phase, this`index
      ensures Abstract() == Decoder.AfterIds(cfg, old(Abstract()))
    {
      if cfg.arq { Go(Seq); } else { AfterSeq(); }
    }

    method AfterSeq()
      modifies this`phase, this`index
      ensures Abstract() == Decoder.AfterSeq(cfg, old(Abstract()))
    {
      if cfg.seg { Go(SegStream); } else { Go(LenLow); }
    }

    method AfterLength()
      modifies this`phase, this`index
      ensures Abstract() == Decoder.AfterLength(cfg, old(Abstract()))
    {
      if length > 0 { Go(Data); } else { AfterData(); }
    }

    method AfterData()
      modifies this`phase, this`index
      ensures Abstract() == Decoder.AfterData(cfg, old(Abstract()))
    {
      if cfg.ecc { Go(Ecc0); } else { AfterEcc(); }
    }

    method AfterEcc()
      modifies this`phase, this`index
      ensures Abstract() == Decoder.AfterEcc(cfg, old(Abstract()))
    {
      if cfg.crc.Some? { Go(Crc1); } else { AfterCrc(); }
    }

    method AfterCrc()
      modifies this`phase, this`index
      ensures Abstract() == Decoder.AfterCrc(cfg, old(Abstract()))
    {
      if cfg.hmac { Go(Mac1); } else { Go(Stop1); }
    }

    // ---- One byte ----

    // The answer of a call that ends without an error.
    function Plainly(): (r: Ret)
      reads this, data, crc
      ensures r == Plain(Abstract()).1
    {
      if phase == Start1 then WaitData else InProg
    }

    // The fields and their value agree.
    lemma FieldsAre()
      ensures var s := Abstract();
              && s.phase == phase && s.index == index && s.length == length && s.id == id
              && s.idx == idx && s.total == total && s.shift == shift && s.data == data[..]
              && s.seqByte == seqByte && s.nacks == nacks
    {
    }

    // Plain stores into the fields.

    method StoreSrc(v: bv8)
      modifies this`src
      ensures Abstract() == old(Abstract()).(src := v)
    {
      src := v;
    }

    method StoreId(v: bv16)
      modifies this`id
      ensures Abstract() == old(Abstract()).(id := v)
    {
      id := v;
    }

    method StoreSeq(v: bv8)
      modifies this`seqByte
      ensures Abstract() == old(Abstract()).(seqByte := v)
    {
      seqByte := v;
    }

    method StoreStream(v: bv8)
      modifies this`stream
      ensures Abstract() == old(Abstract()).(stream := v)
    {
      stream := v;
    }

    method StoreIdx(v: bv32, sh: bv8)
      modifies this`idx, this`shift
      ensures Abstract() == old(Abstract()).(idx := v, shift := sh)
    {
      idx, shift := v, sh;
    }

    method StoreTotal(v: bv32, sh: bv8)
      modifies this`total, this`shift
      ensures Abstract() == old(Abstract()).(total := v, shift := sh)
    {
      total, shift := v, sh;
    }

    method StoreLength(n: nat)
      modifies this`length
      ensures length == n && Abstract() == old(Abstract()).(length := n)
    {
      length := n;
    }

    method StoreEcc0(v: bv8)
      modifies this`ecc0
      ensures Abstract() == old(Abstract()).(ecc0 := v)
    {
      ecc0 := v;
    }

    method StoreEcc1(v: bv8)
      modifies this`ecc1
      ensures Abstract() == old(Abstract()).(ecc1 := v)
    {
      ecc1 := v;
    }

    method StoreMac(m: seq<bv8>)
      modifies this`macRx
      ensures macRx == m && Abstract() == old(Abstract()).(macRx := m)
    {
      macRx := m;
    }

    method ReadStart(b: bv8) returns (r: Ret)
      requires Valid() && phase in {Start1, Start2, TypeMethod, Phase.Src, Dst}
      modifies this, data, crc
      ensures Valid() && (Abstract(), r) == StepStart(cfg, own, old(Abstract()), b)
    {
      hide Abstract, Decoder.HdrByte, IsStart1, Frame.TypeMethod, Decoder.Reset;
      FieldsAre();
      match phase {
        case Start1 =>
          if IsStart1(b) {
            Reset();
            Go(Start2);
          }
        case Start2 =>
          if b == START2 { Go(TypeMethod); } else { Reset(); }
        case TypeMethod =>
          if b != Frame.TypeMethod(cfg) {
            Reset();
            return ErrTypeMethod;
          }
          HdrByte(b);
          Go(if cfg.target then Phase.Src else IdLow);
        case Src =>
          StoreSrc(b);
          HdrByte(b);
          Go(Dst);
        case Dst =>
          if b != own && b != BROADCAST {
            Reset();
            return ErrAddr;
          }
          HdrByte(b);
          Go(IdLow);
      }
      r := Plainly();
    }

    method ReadHeader(b: bv8) returns (r: Ret)
      requires Valid() && phase in {IdLow, IdHigh, Seq}
      modifies this, crc
      ensures Valid() && (Abstract(), r) == StepHeader(cfg, old(Abstract()), b)
    {
      hide Abstract, Decoder.HdrByte, Decoder.AfterIds, Decoder.AfterSeq, FromLow, WithHigh;
      FieldsAre();
      match phase {
        case IdLow =>
          StoreId(FromLow(b));
          HdrByte(b);
          Go(IdHigh);
        case IdHigh =>
          StoreId(WithHigh(id, b));
          HdrByte(b);
          AfterIds();
        case Seq =>
          StoreSeq(b);
          HdrByte(b);
          AfterSeq();
      }
      r := Plainly();
    }

    method ReadLenLow(b: bv8) returns (r: Ret)
      requires Valid() && phase == LenLow
      modifies this, crc
      ensures Valid() && (Abstract(), r) == StepHeader(cfg, old(Abstract()), b)
    {
      hide Abstract, Decoder.HdrByte, Decoder.AfterLength, ToNat;
      FieldsAre();
      StoreLength(ToNat(b));
      HdrByte(b);
      if cfg.len16 { Go(LenHigh); } else { AfterLength(); }
      r := Plainly();
    }

    method ReadLenHigh(b: bv8) returns (r: Ret)
      requires Valid() && phase == LenHigh && cfg.len16
      modifies this, crc
      ensures Valid() && (Abstract(), r) == StepHeader(cfg, old(Abstract()), b)
    {
      hide Abstract, Decoder.HdrByte, Decoder.AfterLength, ToNat;
      FieldsAre();
      StoreLength(length + 256 * ToNat(b));
      HdrByte(b);
      AfterLength();
      r := Plainly();
    }

    // The shift is put back to 0 when the last byte of the chunk index is in.
    method ReadSeg(b: bv8) returns (r: Ret)
      requires Valid() && phase in {SegStream, SegIdx, SegTotal}
      modifies this, crc
      ensures Valid() && (Abstract(), r) == StepSeg(cfg, old(Abstract()), b)
    {
      hide Abstract, Decoder.HdrByte, Leb128.Last, Leb128.Absorb;
      FieldsAre();
      match phase {
        case SegStream =>
          StoreStream(b);
          StoreIdx(0, 0);
          StoreTotal(0, 0);
          HdrByte(b);
          Go(SegIdx);
        case SegIdx =>
          var a := Leb128.Absorb(Leb128.Acc(idx, shift), b);
          if Leb128.Last(b) {
            StoreIdx(a.value, 0);
            HdrByte(b);
            Go(SegTotal);
          } else {
            StoreIdx(a.value, a.shift);
            HdrByte(b);
          }
        case SegTotal =>
          var a := Leb128.Absorb(Leb128.Acc(total, shift), b);
          StoreTotal(a.value, a.shift);
          HdrByte(b);
          if Leb128.Last(b) {
            Go(LenLow);
          }
      }
      r := Plainly();
    }

    method Store(b: bv8)
      requires index < data.Length
      modifies this`index, data, crc
      ensures var s := old(Abstract());
              Abstract() == s.(data := s.data[s.index := b], index := s.index + 1, crc := CrcFeed(cfg, s.crc, b))
    {
      hide Crc.Update;
      data[index] := b;
      index := index + 1;
      if cfg.crc.Some? {
        crc.Feed(b, useTable);
      }
    }

    method ReadData(b: bv8) returns (r: Ret)
      requires Valid() && phase == Data
      modifies this, data, crc
      ensures Valid() && (Abstract(), r) == StepBody(cfg, old(Abstract()), b)
    {
      hide Abstract, Decoder.AfterData, Decoder.Reset, CrcFeed;
      FieldsAre();
      if index >= data.Length {
        Reset();
        return ErrMem;
      }
      Store(b);
      FieldsAre();
      if index == length {
        AfterData();
      }
      r := Plainly();
    }

    method ReadEcc(b: bv8) returns (r: Ret)
      requires Valid() && phase in {Ecc0, Ecc1}
      modifies this, crc
      ensures Valid() && (Abstract(), r) == StepBody(cfg, old(Abstract()), b)
    {
      hide Abstract, Decoder.EccByte, Decoder.AfterEcc;
      FieldsAre();
      if phase == Ecc0 {
        StoreEcc0(b);
        EccByte(b);
        Go(Ecc1);
      } else {
        StoreEcc1(b);
        EccByte(b);
        AfterEcc();
      }
      r := Plainly();
    }

    method ForgetCrcRx()
      modifies this`crcRx
      ensures Abstract() == old(Abstract()).(crcRx := [])
    {
      crcRx := [];
    }

    method ReadCrc(b: bv8) returns (r: Ret)
      requires Valid() && phase in {Crc1, Crc2, Crc3, Crc4}
      modifies this, data, crc
      ensures Valid() && (Abstract(), r) == StepCrc(cfg, old(Abstract()), b)
    {
      hide Abstract, Decoder.CrcByte, Decoder.CheckCrc;
      FieldsAre();
      match phase {
        case Crc1 =>
          ForgetCrcRx();
          CrcByte(b);
          Go(Crc2);
          r := Plainly();
        case Crc2 =>
          CrcByte(b);
          if cfg.crc == Some(Crc.Kind32) {
            Go(Crc3);
            r := Plainly();
          } else {
            r := CheckCrc();
          }
        case Crc3 =>
          CrcByte(b);
          Go(Crc4);
          r := Plainly();
        case Crc4 =>
          CrcByte(b);
          r := CheckCrc();
      }
    }

    // The CRC of the bytes received is the one received.
    method CrcMatches() returns (same: bool)
      ensures same == (Abstract().crcRx == Crc.Bytes(Abstract().crc))
    {
      hide Crc.Bytes;
      same := crcRx == Crc.Bytes(crc.current);
    }

    method TryRepair() returns (res: Ecc.EccResult)
      requires Valid()
      modifies data
      ensures var s := old(Abstract());
              var (d, block) := Repair(cfg, s);
              && res == d
              && Abstract() == if cfg.ecc then s.(data := block + s.data[|block|..]) else s
    {
      hide Ecc.Decoded;
      res := Ecc.EccFailUncorrected;
      if cfg.ecc {
        res := Ecc.Decode(data, length, ecc0, ecc1);
        assert data[..] == data[..length] + data[length..];
      }
    }

    method MarkCorrected()
      modifies this`corrected
      ensures Abstract() == old(Abstract()).(corrected := true)
    {
      corrected := true;
    }

    method SendNack()
      modifies this`nacks
      ensures Abstract() == old(Abstract()).(nacks := old(nacks) + [SeqNumber(old(seqByte))])
    {
      hide SeqNumber;
      nacks := nacks + [SeqNumber(seqByte)];
    }

    // All CRC bytes are in.
    method CheckCrc() returns (r: Ret)
      requires Valid()
      modifies this, data, crc
      ensures Valid() && (Abstract(), r) == Decoder.CheckCrc(cfg, old(Abstract()))
    {
      hide Abstract, Crc.Bytes, Decoder.AfterCrc, Decoder.Reset, Repair, SeqNumber;
      var same := CrcMatches();
      if same {
        AfterCrc();
        r := Plainly();
      } else {
        r := RepairOrReject();
      }
    }

    method RepairOrReject() returns (r: Ret)
      requires Valid() && Abstract().crcRx != Crc.Bytes(Abstract().crc)
      modifies this, data, crc
      ensures Valid() && (Abstract(), r) == Decoder.CheckCrc(cfg, old(Abstract()))
    {
      hide Abstract, Crc.Bytes, Decoder.AfterCrc, Decoder.Reset, Repair, SeqNumber;
      ghost var s := Abstract();
      var res := TryRepair();
      OnlyEccRepairs(cfg, s);
      if res == Ecc.EccCorrected {
        MarkCorrected();
        AfterCrc();
        return Plainly();
      }
      RepairKeepsRest(cfg, s);
      Reject();
      r := ErrCrc;
    }

    // The frame is dropped, with a NACK if there is ARQ.
    method Reject()
      requires Valid()
      modifies this, data, crc
      ensures Valid()
      ensures var s := old(Abstract());
              Abstract() == Decoder.Reset(cfg, if cfg.arq then s.(nacks := s.nacks + [SeqNumber(s.seqByte)]) else s)
    {
      hide Abstract, Decoder.Reset, SeqNumber;
      if cfg.arq {
        FieldsAre();
        SendNack();
      }
      Reset();
    }

    method TagMatches() returns (same: bool)
      requires Valid()
      ensures var s := Abstract(); same == (s.macRx == Bytes32(SipHash.Tag(s.hdr + TagData(s) + s.check)))
    {
      hide SipHash.Tag, Bytes32;
      var tag := SipHash.Compute(hdr, data[..length % 256], check);
      assert TagData(Abstract()) == data[..length % 256];
      same := macRx == Bytes32(tag);
    }

    method ReadMac(b: bv8) returns (r: Ret)
      requires Valid() && phase in {Mac1, Mac2, Mac3, Mac4}
      modifies this, data, crc
      ensures Valid() && (Abstract(), r) == StepMac(cfg, old(Abstract()), b)
    {
      hide Abstract, Decoder.CheckTag;
      FieldsAre();
      MacIs();
      match phase {
        case Mac1 =>
          StoreMac([b]);
          Go(Mac2);
        case Mac2 =>
          StoreMac(macRx + [b]);
          Go(Mac3);
        case Mac3 =>
          StoreMac(macRx + [b]);
          Go(Mac4);
        case Mac4 =>
          StoreMac(macRx + [b]);
          r := CheckTag();
          return;
      }
      r := Plainly();
    }

    method CheckTag() returns (r: Ret)
      requires Valid()
      modifies this, data, crc
      ensures Valid() && (Abstract(), r) == Decoder.CheckTag(cfg, old(Abstract()))
    {
      hide Abstract, Decoder.Reset, SipHash.Tag, Bytes32, TagData;
      var same := TagMatches();
      if !same {
        Reset();
        return ErrHmac;
      }
      Go(Stop1);
      r := Plainly();
    }

    lemma MacIs()
      ensures Abstract().macRx == macRx
    {
    }

    method ReadStop(b: bv8) returns (r: Ret)
      requires Valid() && phase in {Stop1, Stop2}
      modifies this, data, crc
      ensures Valid() && (Abstract(), r) == StepStop(cfg, old(Abstract()), b)
    {
      hide Abstract, Decoder.Reset;
      FieldsAre();
      match phase {
        case Stop1 =>
          if b == STOP1 {
            Go(Stop2);
            return Plainly();
          }
        case Stop2 =>
          if b == STOP2 {
            Go(Start1);
            return Ret.Valid;
          }
      }
      Reset();
      r := ErrStop;
    }

    // The decoder proper: one byte in, one answer out.
    method Read(b: bv8) returns (r: Ret)
      requires Valid()
      modifies this, data, crc
      ensures Valid() && (Abstract(), r) == Step(cfg, own, old(Abstract()), b)
    {
      hide StepStart, StepHeader, StepSeg, StepBody, StepCrc, StepMac, StepStop, Decoder.Reset;
      hide Abstract;
      FieldsAre();
      if !Compiled(cfg, phase) {
        Reset();
        return Err;
      }
      match phase {
        case Start1 | Start2 | TypeMethod | Src | Dst => r := ReadStart(b);
        case IdLow | IdHigh | Seq => r := ReadHeader(b);
        case SegStream | SegIdx | SegTotal => r := ReadSeg(b);
        case LenLow => r := ReadLenLow(b);
        case LenHigh => r := ReadLenHigh(b);
        case Data => r := ReadData(b);
        case Ecc0 | Ecc1 => r := ReadEcc(b);
        case Crc1 | Crc2 | Crc3 | Crc4 => r := ReadCrc(b);
        case Mac1 | Mac2 | Mac3 | Mac4 => r := ReadMac(b);
        case Stop1 | Stop2 => r := ReadStop(b);
      }
    }

    method Poll(got: Option<bv8>, now: bv32) returns (r: Ret)
      requires Valid()
      modifies this, data, crc
      ensures Valid() && (Abstract(), lastRx, r) == Decoder.Poll(cfg, own, old(Abstract()), old(lastRx), got, now)
    {
      hide Abstract, Step, Decoder.Reset, Silent;
      FieldsAre();
      if got.Some? {
        r := Read(got.value);
        SetLastRx(now);
      } else if phase != Start1 && Silent(now, lastRx) {
        Reset();
        SetLastRx(now);
        r := ErrTimeout;
      } else {
        r := WaitData;
      }
    }

    method SetLastRx(now: bv32)
      modifies this`lastRx
      ensures lastRx == now && Abstract() == old(Abstract())
    {
      lastRx := now;
    }
  }

  lemma OnlyEccRepairs(cfg: Config, s: State)
    ensures Repair(cfg, s).0 == Ecc.EccCorrected ==> cfg.ecc
  {
    hide Ecc.Decoded;
  }

  // A reset decoder remembers only the NACKs sent, so a failed repair leaves no trace.
  lemma RepairKeepsRest(cfg: Config, s: State)
    ensures var block := Repair(cfg, s).1;
            var t := if cfg.ecc then s.(data := block + s.data[|block|..]) else s;
            Decoder.Reset(cfg, if cfg.arq then t.(nacks := t.nacks + [SeqNumber(t.seqByte)]) else t) ==
            Decoder.Reset(cfg, if cfg.arq then s.(nacks := s.nacks + [SeqNumber(s.seqByte)]) else s)
  {
    hide Repair, SeqNumber, Zeros, FreshCrc;
  }
}
