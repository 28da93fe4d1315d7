// The xTP wire format under every build configuration, and the frame encoder.
module Frame {
  import opened Bytes
  import opened Wrappers
  import Crc
  import Ecc
  import Leb128
  import SipHash

  // The feature flags of xtp_config.h, which both ends compile in.
  datatype Config = Config(crc: Option<Crc.Kind>, ecc: bool, hmac: bool, len16: bool, seg: bool, arq: bool, target: bool)

  // The combinations that compile: ECC is limited to 8-bit lengths, and the tag buffers
  // exist only together with a CRC.
  predicate ValidConfig(cfg: Config) {
    && !(cfg.len16 && cfg.ecc)
    && (cfg.hmac ==> cfg.crc.Some?)
  }

  const SHIPPED := Config(Some(Crc.Kind16), true, false, false, false, true, false)

  // The PROT|XFER byte announcing the flags.
  function TypeMethod(cfg: Config): bv8 {
    Flag(cfg.crc.Some?, 0x80) | Flag(cfg.crc == Some(Crc.Kind32), 0x40) | Flag(cfg.ecc, 0x20) | Flag(cfg.hmac, 0x10) |
    Flag(cfg.len16, 0x08) | Flag(cfg.seg, 0x04) | Flag(cfg.arq, 0x02) | Flag(cfg.target, 0x01)
  }

  function MaxPayload(cfg: Config): nat {
    if cfg.len16 then 5120 else 255
  }

  const START1: bv8 := 0xC0
  const START2: bv8 := 0xDE
  const STOP1: bv8 := 0xDA
  const STOP2: bv8 := 0xED
  const BROADCAST: bv8 := 0xFF

  // What the caller of the encoder supplies; src is the sender's own address.
  datatype Fields = Fields(src: bv8, dst: bv8, id: bv16, seqByte: bv8, stream: bv8, idx: bv32, total: bv32)

  // ---- Wire format ----

  function When(on: bool, s: seq<bv8>): seq<bv8> {
    if on then s else []
  }

  function SegHeader(f: Fields): seq<bv8> {
    [f.stream] + Leb128.Encode(f.idx) + Leb128.Encode(f.total)
  }

  function LengthField(cfg: Config, n: nat): seq<bv8>
    requires n < 0x1_0000
  {
    [LowByte(n)] + When(cfg.len16, [HighByte(n)])
  }

  // The header: everything from the PROT|XFER byte to the length.
  function Header(cfg: Config, f: Fields, n: nat): seq<bv8>
    requires n < 0x1_0000
  {
    [TypeMethod(cfg)] + When(cfg.target, [f.src, f.dst]) + [Low16(f.id), High16(f.id)] + When(cfg.arq, [f.seqByte]) +
    When(cfg.seg, SegHeader(f)) + LengthField(cfg, n)
  }

  function EccField(cfg: Config, payload: seq<bv8>): seq<bv8> {
    When(cfg.ecc, [Ecc.Parity(payload), Ecc.Locator(payload)])
  }

  // The CRC bytes over the given bytes.
  function CrcField(cfg: Config, covered: seq<bv8>): seq<bv8> {
    if cfg.crc.Some? then Crc.Bytes(Crc.UpdateAll(Crc.Init(cfg.crc.value), covered)) else []
  }

  // The tag sees at most 16 header bytes, and the payload only up to its length modulo 256:
  // the tag function takes an 8-bit length.
  function TagInput(header: seq<bv8>, payload: seq<bv8>, check: seq<bv8>): seq<bv8> {
    Clip(header) + payload[..|payload| % 256] + check
  }

  function TagField(cfg: Config, header: seq<bv8>, payload: seq<bv8>, check: seq<bv8>): seq<bv8> {
    When(cfg.hmac, Bytes32(SipHash.Tag(TagInput(header, payload, check))))
  }

  function Clip(header: seq<bv8>): seq<bv8> {
    if |header| <= 16 then header else header[..16]
  }

  // The whole frame.
  function Wire(cfg: Config, f: Fields, payload: seq<bv8>): seq<bv8>
    requires |payload| < 0x1_0000
  {
    var header := Header(cfg, f, |payload|);
    var ecc := EccField(cfg, payload);
    var crc := CrcField(cfg, header + payload + ecc);
    [START1, START2] + header + payload + ecc + crc + TagField(cfg, header, payload, ecc + crc) + [STOP1, STOP2]
  }

  function Count(on: bool, n: nat): nat {
    if on then n else 0
  }

  // The frame size without payload, as the header file counts it.
  function Overhead(cfg: Config): nat {
    8 + Count(cfg.target, 2) + Count(cfg.arq, 1) + Count(cfg.seg, 3) + Count(cfg.len16, 1) + Count(cfg.ecc, 2)
    + (if cfg.crc.Some? then Crc.Size(cfg.crc.value) else 0) + Count(cfg.hmac, 4)
  }

  lemma HeaderLength(cfg: Config, f: Fields, n: nat)
    requires n < 0x1_0000
    ensures |Header(cfg, f, n)| ==
            4 + Count(cfg.target, 2) + Count(cfg.arq, 1) + Count(cfg.len16, 1)
            + Count(cfg.seg, 1 + |Leb128.Encode(f.idx)| + |Leb128.Encode(f.total)|)
  {
    hide Leb128.Encode, TypeMethod, Low16, High16, LowByte, HighByte;
  }

  lemma CrcLength(cfg: Config, covered: seq<bv8>)
    ensures |CrcField(cfg, covered)| == if cfg.crc.Some? then Crc.Size(cfg.crc.value) else 0
  {
    hide Crc.UpdateAll;
    if cfg.crc.Some? {
      Crc.UpdateAllKeepsKind(Crc.Init(cfg.crc.value), covered);
    }
  }

  // The frame is as long as the header file says, except that it counts one byte for each of
  // the two chunk numbers.
  lemma WireLength(cfg: Config, f: Fields, payload: seq<bv8>)
    requires |payload| < 0x1_0000
    ensures |Wire(cfg, f, payload)| ==
            Overhead(cfg) + |payload| + Count(cfg.seg, |Leb128.Encode(f.idx)| - 1 + |Leb128.Encode(f.total)| - 1)
  {
    hide Leb128.Encode, CrcField, SipHash.Tag, Ecc.Parity, Ecc.Locator, Header;
    Leb128.EncodeEnds(f.idx);
    Leb128.EncodeEnds(f.total);
    HeaderLength(cfg, f, |payload|);
    CrcLength(cfg, Header(cfg, f, |payload|) + payload + EccField(cfg, payload));
  }

  // ---- Encoder ----

  datatype SendResult = SendOk | SendErrMem

  class Transmitter {
    const cfg: Config
    const src: bv8
    const useTable: bool
    var sent: seq<bv8>  // everything handed to the port

    constructor (cfg: Config, src: bv8, useTable: bool)
      ensures this.cfg == cfg && this.src == src && this.useTable == useTable && sent == []
    {
      this.cfg, this.src, this.useTable, this.sent := cfg, src, useTable, [];
    }

    method SendRaw(s: seq<bv8>)
      modifies this`sent
      ensures sent == old(sent) + s
    {
      sent := sent + s;
    }

    // One byte that the CRC covers.
    method SendCovered(b: bv8, crc: Crc.Context?)
      modifies this`sent, crc
      ensures sent == old(sent) + [b]
      ensures crc != null ==> crc.current == Crc.Update(old(crc.current), b)
    {
      sent := sent + [b];
      if crc != null {
        crc.Feed(b, useTable);
      }
    }

    // Header bytes: the CRC covers them and the tag sees the first sixteen of them. Ghost: what
    // was sent before the header, the header so far and the CRC register it started from.
    method SendHeader(s: seq<bv8>, crc: Crc.Context?, hdr: seq<bv8>,
                      ghost base: seq<bv8>, ghost before: seq<bv8>, ghost c0: Crc.State)
      returns (hdr': seq<bv8>)
      requires hdr == Clip(before) && (crc != null ==> crc.current == Crc.UpdateAll(c0, before))
      requires sent == base + before
      modifies this`sent, crc
      ensures sent == base + (before + s) && hdr' == Clip(before + s)
      ensures crc != null ==> crc.current == Crc.UpdateAll(c0, before + s)
    {
      hide Crc.Update, Crc.UpdateAll;
      hdr' := hdr;
      var i := 0;
      assert s[..0] == [] && before + [] == before;
      while i < |s|
        invariant 0 <= i <= |s|
        invariant sent == base + (before + s[..i]) && hdr' == Clip(before + s[..i])
        invariant crc != null ==> crc.current == Crc.UpdateAll(c0, before + s[..i])
      {
        assert before + s[..i + 1] == (before + s[..i]) + [s[i]];
        Crc.UpdateAllSnoc(c0, before + s[..i], s[i]);
        SendCovered(s[i], crc);
        if |hdr'| < 16 {
          hdr' := hdr' + [s[i]];
        }
        i := i + 1;
      }
      assert s[..|s|] == s;
    }

    // Payload bytes: covered by the CRC only.
    method SendPayload(data: array<bv8>, len: nat, crc: Crc.Context?)
      requires len <= data.Length
      modifies this`sent, crc
      ensures sent == old(sent) + data[..len]
      ensures crc != null ==> crc.current == Crc.UpdateAll(old(crc.current), data[..len])
    {
      hide Crc.Update, Crc.UpdateAll;
      var i := 0;
      assert data[..0] == [];
      if crc != null {
        Crc.UpdateAllNone(crc.current);
      }
      while i < len
        invariant 0 <= i <= len
        invariant sent == old(sent) + data[..i]
        invariant crc != null ==> crc.current == Crc.UpdateAll(old(crc.current), data[..i])
      {
        assert data[..i + 1] == data[..i] + [data[i]];
        if crc != null {
          Crc.UpdateAllSnoc(old(crc.current), data[..i], data[i]);
        }
        SendCovered(data[i], crc);
        i := i + 1;
      }
    }

    method SendEx(f: Fields, data: array<bv8>, len: nat, space: Option<nat>) returns (res: SendResult)
      requires ValidConfig(cfg) && len < 0x1_0000 && len <= data.Length
      modifies this`sent
      ensures res == SendOk <==>
              len <= (if cfg.len16 then 5120 else 255) && (space.Some? ==> (Overhead(cfg) + len) % 0x1_0000 <= space.value)
      ensures sent == old(sent) + if res == SendOk then Wire(cfg, f.(src := src), data[..len]) else []
    {
      if len > MaxPayload(cfg) {
        return SendErrMem;
      }
      if space.Some? && space.value < (Overhead(cfg) + len) % 0x1_0000 {
        return SendErrMem;
      }
      res := SendOk;
      SendFrame(f.(src := src), data, len);
    }

    method SendFrame(f: Fields, data: array<bv8>, len: nat)
      requires ValidConfig(cfg) && len <= MaxPayload(cfg) && len <= data.Length && f.src == src
      modifies this`sent
      ensures sent == old(sent) + Wire(cfg, f, data[..len])
    {
      hide Crc.Update, Crc.UpdateAll, Crc.Bytes, Header, Clip, TagField, CrcField, EccField;
      ghost var header, payload, base := Header(cfg, f, len), data[..len], sent;
      ghost var c0 := if cfg.crc.Some? then Crc.Init(cfg.crc.value) else Crc.C16(0);
      var crc: Crc.Context? := null;
      if cfg.crc.Some? {
        crc := new Crc.Context(cfg.crc.value);
      }
      SendRaw([START1, START2]);
      var hdr := SendHeaderFields(f, len, crc, c0);
      SendPayload(data, len, crc);
      Crc.UpdateAllAppend(c0, header, payload);
      var ecc := SendEcc(data, len, crc, c0, header + payload);
      var crcField := SendCrc(crc, c0, header + payload + ecc);
      SendTag(hdr, data, len, ecc + crcField, header);
      SendRaw([STOP1, STOP2]);
      Assemble(base, [START1, START2], header, payload, ecc, crcField,
               TagField(cfg, header, payload, ecc + crcField), [STOP1, STOP2]);
    }

    method SendCrc(crc: Crc.Context?, ghost c0: Crc.State, ghost covered: seq<bv8>) returns (bytes: seq<bv8>)
      requires cfg.crc.Some? ==> crc != null && c0 == Crc.Init(cfg.crc.value)
      requires crc != null ==> crc.current == Crc.UpdateAll(c0, covered)
      modifies this`sent
      ensures bytes == CrcField(cfg, covered) && sent == old(sent) + bytes
    {
      hide Crc.UpdateAll, Crc.Bytes;
      bytes := [];
      if cfg.crc.Some? {
        bytes := Crc.Bytes(crc.current);
      }
      SendRaw(bytes);
    }

    method SendTag(hdr: seq<bv8>, data: array<bv8>, len: nat, check: seq<bv8>, ghost header: seq<bv8>)
      requires len <= data.Length && hdr == Clip(header)
      modifies this`sent
      ensures sent == old(sent) + TagField(cfg, header, data[..len], check)
    {
      hide Clip, SipHash.Tag, Bytes32;
      assert data[..len % 256] == data[..len][..len % 256];
      if cfg.hmac {
        var tag := SipHash.Compute(hdr, data[..len % 256], check);
        SendRaw(Bytes32(tag));
      }
    }

    method SendEcc(data: array<bv8>, len: nat, crc: Crc.Context?, ghost c0: Crc.State, ghost before: seq<bv8>)
      returns (check: seq<bv8>)
      requires ValidConfig(cfg) && len <= MaxPayload(cfg) && len <= data.Length
      requires crc != null ==> crc.current == Crc.UpdateAll(c0, before)
      modifies this`sent, crc
      ensures check == EccField(cfg, data[..len]) && sent == old(sent) + check
      ensures crc != null ==> crc.current == Crc.UpdateAll(c0, before + check)
    {
      hide Crc.Update, Crc.UpdateAll, Ecc.Parity, Ecc.Locator;
      check := [];
      assert before + [] == before;
      if cfg.ecc {
        var e0, e1 := Ecc.Encode(data, len);
        SendCovered(e0, crc);
        SendCovered(e1, crc);
        check := [e0, e1];
        Crc.UpdateAllSnoc(c0, before, e0);
        Crc.UpdateAllSnoc(c0, before + [e0], e1);
        assert (before + [e0]) + [e1] == before + check;
      }
    }

    // A compiled-out field is sent as no bytes at all.
    method SendHeaderFields(f: Fields, len: nat, crc: Crc.Context?, ghost c0: Crc.State) returns (hdr: seq<bv8>)
      requires f.src == src && len < 0x1_0000 && (crc != null ==> crc.current == c0)
      modifies this`sent, crc
      ensures sent == old(sent) + Header(cfg, f, len)
      ensures hdr == Clip(Header(cfg, f, len))
      ensures crc != null ==> crc.current == Crc.UpdateAll(c0, Header(cfg, f, len))
    {
      hide Crc.UpdateAll, TypeMethod, Clip, SegHeader, LengthField, Low16, High16, When;
      ghost var base, h := sent, [TypeMethod(cfg)];
      Crc.UpdateAllNone(c0);
      ClipNone();
      assert [] + h == h;
      hdr := SendHeader([TypeMethod(cfg)], crc, [], base, [], c0);
      hdr := SendHeader(When(cfg.target, [src, f.dst]), crc, hdr, base, h, c0);
      h := h + When(cfg.target, [src, f.dst]);
      hdr := SendHeader([Low16(f.id), High16(f.id)], crc, hdr, base, h, c0);
      h := h + [Low16(f.id), High16(f.id)];
      hdr := SendHeader(When(cfg.arq, [f.seqByte]), crc, hdr, base, h, c0);
      h := h + When(cfg.arq, [f.seqByte]);
      hdr := SendSeg(f, crc, hdr, base, h, c0);
      h := h + When(cfg.seg, SegHeader(f));
      hdr := SendLength(len, crc, hdr, base, h, c0);
    }

    method SendSeg(f: Fields, crc: Crc.Context?, hdr: seq<bv8>,
                   ghost base: seq<bv8>, ghost before: seq<bv8>, ghost c0: Crc.State)
      returns (hdr': seq<bv8>)
      requires hdr == Clip(before) && (crc != null ==> crc.current == Crc.UpdateAll(c0, before))
      requires sent == base + before
      modifies this`sent, crc
      ensures var h := before + When(cfg.seg, SegHeader(f));
              sent == base + h && hdr' == Clip(h) && (crc != null ==> crc.current == Crc.UpdateAll(c0, h))
    {
      hide Crc.UpdateAll, Clip, Leb128.Encode;
      hdr' := hdr;
      assert before + [] == before;
      if cfg.seg {
        var idx := Leb128.Send(f.idx);
        var total := Leb128.Send(f.total);
        ghost var h1, h2 := before + [f.stream], before + [f.stream] + idx;
        hdr' := SendHeader([f.stream], crc, hdr', base, before, c0);
        hdr' := SendHeader(idx, crc, hdr', base, h1, c0);
        hdr' := SendHeader(total, crc, hdr', base, h2, c0);
        assert h2 + total == before + SegHeader(f);
      }
    }

    method SendLength(len: nat, crc: Crc.Context?, hdr: seq<bv8>,
                      ghost base: seq<bv8>, ghost before: seq<bv8>, ghost c0: Crc.State)
      returns (hdr': seq<bv8>)
      requires hdr == Clip(before) && (crc != null ==> crc.current == Crc.UpdateAll(c0, before))
      requires sent == base + before && len < 0x1_0000
      modifies this`sent, crc
      ensures var h := before + LengthField(cfg, len);
              sent == base + h && hdr' == Clip(h) && (crc != null ==> crc.current == Crc.UpdateAll(c0, h))
    {
      hide Crc.UpdateAll, Clip, LowByte, HighByte;
      hdr' := SendHeader([LowByte(len)], crc, hdr, base, before, c0);
      if cfg.len16 {
        ghost var h := before + [LowByte(len)];
        hdr' := SendHeader([HighByte(len)], crc, hdr', base, h, c0);
        assert h + [HighByte(len)] == before + LengthField(cfg, len);
      } else {
        assert [LowByte(len)] + [] == [LowByte(len)];
      }
    }
  }

  lemma Assemble(base: seq<bv8>, a: seq<bv8>, b: seq<bv8>, c: seq<bv8>, d: seq<bv8>, e: seq<bv8>, f: seq<bv8>, g: seq<bv8>)
    ensures base + a + b + c + d + e + f + g == base + (a + b + c + d + e + f + g)
  {
  }

  lemma ClipNone()
    ensures Clip([]) == []
  {
  }
}
