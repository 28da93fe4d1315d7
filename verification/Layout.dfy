// What a frame looks like to a peer that knows only the format: every byte of it, without the
// functions the two ends share.
module Layout {
  import opened Bytes
  import opened Frame
  import Crc
  import Crc16
  import Crc32
  import Ecc
  import Leb128
  import SipHash

  // ---- The two checks as plain registers ----

  // CRC-16/XMODEM: from zero, each byte into the top of the register and eight bit steps.
  function Reg16(s: seq<bv8>): bv16 {
    if |s| == 0 then 0 else Crc16.Bits(Reg16(s[..|s| - 1]) ^ ((s[|s| - 1] as bv16) << 8), 8)
  }

  // CRC-32 without reflection: from all ones; the result is the complement of the register.
  function Reg32(s: seq<bv8>): bv32 {
    if |s| == 0 then 0xFFFF_FFFF else Crc32.Bits(Reg32(s[..|s| - 1]) ^ ((s[|s| - 1] as bv32) << 24), 8)
  }

  lemma Reg16Snoc(s: seq<bv8>, b: bv8)
    ensures Reg16(s + [b]) == Crc16.Step(Reg16(s), b)
  {
    hide Crc16.Bits;
    assert (s + [b])[..|s|] == s;
  }

  lemma Reg32Snoc(s: seq<bv8>, b: bv8)
    ensures Reg32(s + [b]) == Crc32.Step(Reg32(s), b)
  {
    hide Crc32.Bits;
    assert (s + [b])[..|s|] == s;
  }

  lemma {:induction false} IsReg16(s: seq<bv8>)
    ensures Crc.UpdateAll(Crc.Init(Crc.Kind16), s) == Crc.C16(Reg16(s))
  {
    if |s| > 0 {
      var t, b := s[..|s| - 1], s[|s| - 1];
      IsReg16(t);
      assert s == t + [b];
      hide Crc16.Step, Crc.UpdateAll, Reg16;
      Crc.UpdateAllSnoc(Crc.Init(Crc.Kind16), t, b);
      Reg16Snoc(t, b);
    }
  }

  lemma {:induction false} IsReg32(s: seq<bv8>)
    ensures Crc.UpdateAll(Crc.Init(Crc.Kind32), s) == Crc.C32(Reg32(s))
  {
    if |s| > 0 {
      var t, b := s[..|s| - 1], s[|s| - 1];
      IsReg32(t);
      assert s == t + [b];
      hide Crc32.Step, Crc.UpdateAll, Reg32;
      Crc.UpdateAllSnoc(Crc.Init(Crc.Kind32), t, b);
      Reg32Snoc(t, b);
    }
  }

  // ---- Words on the wire, low byte first ----

  function Word16(s: seq<bv8>): bv16
    requires |s| == 2
  {
    (s[0] as bv16) | ((s[1] as bv16) << 8)
  }

  function Word32(s: seq<bv8>): bv32
    requires |s| == 4
  {
    (s[0] as bv32) | ((s[1] as bv32) << 8) | ((s[2] as bv32) << 16) | ((s[3] as bv32) << 24)
  }

  lemma SplitWord16(w: bv16)
    ensures Word16([Low16(w), High16(w)]) == w
  {
  }

  lemma SplitWord32(w: bv32)
    ensures Word32(Bytes32(w)) == w
  {
  }

  lemma ByteIsNumber(n: nat)
    requires n < 256
    ensures ToByte(n) as int == n
  {
    ToNatToByte(n);
    NumberOfByte(ToByte(n));
  }

  lemma NumberOfByte(b: bv8)
    ensures ToNat(b) == b as int
  {
  }

  // ---- The layout ----

  // The parts of a frame between the start and the stop bytes.
  datatype Parts = Parts(flags: bv8, address: seq<bv8>, id: seq<bv8>, seqNo: seq<bv8>, chunk: seq<bv8>,
                         length: seq<bv8>, payload: seq<bv8>, ecc: seq<bv8>, crc: seq<bv8>, tag: seq<bv8>)
  {
    function Head(): seq<bv8> {
      [flags] + address + id + seqNo + chunk + length
    }

    function Covered(): seq<bv8> {
      Head() + payload + ecc
    }

    function Tagged(): seq<bv8> {
      (if |Head()| <= 16 then Head() else Head()[..16]) + payload[..|payload| % 256] + (ecc + crc)
    }

    function Whole(): seq<bv8> {
      [0xC0, 0xDE] + Covered() + crc + tag + [0xDA, 0xED]
    }
  }

  ghost predicate FlagsSay(cfg: Config, flags: bv8) {
    && (flags & 0x80 != 0 <==> cfg.crc.Some?)
    && (flags & 0x40 != 0 <==> cfg.crc.Some? && cfg.crc.value.Kind32?)
    && (flags & 0x20 != 0 <==> cfg.ecc)
    && (flags & 0x10 != 0 <==> cfg.hmac)
    && (flags & 0x08 != 0 <==> cfg.len16)
    && (flags & 0x04 != 0 <==> cfg.seg)
    && (flags & 0x02 != 0 <==> cfg.arq)
    && (flags & 0x01 != 0 <==> cfg.target)
  }

  ghost predicate LengthSays(cfg: Config, n: nat, l: seq<bv8>) {
    if cfg.len16 then |l| == 2 && l[0] as int + 256 * l[1] as int == n else |l| == 1 && l[0] as int == n % 256
  }

  ghost predicate HeadSays(cfg: Config, f: Fields, n: nat, p: Parts) {
    && FlagsSay(cfg, p.flags)
    && p.address == (if cfg.target then [f.src, f.dst] else [])
    && |p.id| == 2 && Word16(p.id) == f.id
    && p.seqNo == (if cfg.arq then [f.seqByte] else [])
    && p.chunk == (if cfg.seg then [f.stream] + Leb128.Encode(f.idx) + Leb128.Encode(f.total) else [])
    && LengthSays(cfg, n, p.length)
  }

  ghost predicate ChecksSay(cfg: Config, p: Parts) {
    && p.ecc == (if cfg.ecc then [Ecc.Parity(p.payload), Ecc.Locator(p.payload)] else [])
    && (cfg.crc.None? ==> p.crc == [])
    && (cfg.crc.Some? && cfg.crc.value.Kind16? ==> |p.crc| == 2 && Word16(p.crc) == Reg16(p.Covered()))
    && (cfg.crc.Some? && cfg.crc.value.Kind32? ==> |p.crc| == 4 && Word32(p.crc) == Reg32(p.Covered()) ^ 0xFFFF_FFFF)
    && (if cfg.hmac then |p.tag| == 4 && Word32(p.tag) == SipHash.Tag(p.Tagged()) else p.tag == [])
  }

  lemma Flags(cfg: Config)
    ensures FlagsSay(cfg, TypeMethod(cfg))
  {
  }

  lemma Length(cfg: Config, n: nat)
    requires n < 0x1_0000
    ensures LengthSays(cfg, n, LengthField(cfg, n))
  {
    hide ToByte;
    ByteIsNumber(n % 256);
    if cfg.len16 {
      ByteIsNumber(n / 256);
    }
  }

  lemma CrcBytes(cfg: Config, covered: seq<bv8>)
    ensures var c := CrcField(cfg, covered);
            && (cfg.crc.None? ==> c == [])
            && (cfg.crc.Some? && cfg.crc.value.Kind16? ==> |c| == 2 && Word16(c) == Reg16(covered))
            && (cfg.crc.Some? && cfg.crc.value.Kind32? ==> |c| == 4 && Word32(c) == Reg32(covered) ^ 0xFFFF_FFFF)
  {
    hide Crc.UpdateAll, Reg16, Reg32, Word16, Word32, Low16, High16, Bytes32;
    if cfg.crc.Some? {
      match cfg.crc.value
      case Kind16 =>
        IsReg16(covered);
        SplitWord16(Reg16(covered));
      case Kind32 =>
        IsReg32(covered);
        SplitWord32(Reg32(covered) ^ 0xFFFF_FFFF);
    }
  }

  function PartsOf(cfg: Config, f: Fields, payload: seq<bv8>): Parts
    requires |payload| < 0x1_0000
  {
    var header, ecc := Header(cfg, f, |payload|), EccField(cfg, payload);
    var crc := CrcField(cfg, header + payload + ecc);
    Parts(TypeMethod(cfg), When(cfg.target, [f.src, f.dst]), [Low16(f.id), High16(f.id)],
          When(cfg.arq, [f.seqByte]), When(cfg.seg, SegHeader(f)), LengthField(cfg, |payload|), payload,
          ecc, crc, TagField(cfg, header, payload, ecc + crc))
  }

  lemma HeadOf(cfg: Config, f: Fields, payload: seq<bv8>)
    requires |payload| < 0x1_0000
    ensures var p := PartsOf(cfg, f, payload);
            p.Head() == Header(cfg, f, |payload|) && HeadSays(cfg, f, |payload|, p)
  {
    hide TypeMethod, FlagsSay, LengthSays, Word16, Low16, High16, LengthField, CrcField, EccField, TagField, Leb128.Encode;
    Flags(cfg);
    SplitWord16(f.id);
    Length(cfg, |payload|);
  }

  lemma ChecksOf(cfg: Config, f: Fields, payload: seq<bv8>)
    requires |payload| < 0x1_0000
    ensures ChecksSay(cfg, PartsOf(cfg, f, payload))
  {
    hide TypeMethod, FlagsSay, HeadSays, Word16, Word32, Low16, High16, Header, Parts.Head, LengthField, CrcField, SipHash.Tag,
      Bytes32, Leb128.Encode, SegHeader, Reg16, Reg32, Ecc.Parity, Ecc.Locator;
    var p := PartsOf(cfg, f, payload);
    HeadOf(cfg, f, payload);
    CrcBytes(cfg, p.Covered());
    if cfg.hmac {
      SplitWord32(SipHash.Tag(p.Tagged()));
    }
    EccOf(cfg, payload);
  }

  lemma EccOf(cfg: Config, payload: seq<bv8>)
    ensures EccField(cfg, payload) == if cfg.ecc then [Ecc.Parity(payload), Ecc.Locator(payload)] else []
  {
    hide Ecc.Parity, Ecc.Locator;
  }

  // Every frame, under every build configuration, consists of these parts.
  lemma WireLayout(cfg: Config, f: Fields, payload: seq<bv8>) returns (p: Parts)
    requires |payload| < 0x1_0000
    ensures p.Whole() == Wire(cfg, f, payload) && p.payload == payload
    ensures HeadSays(cfg, f, |payload|, p) && ChecksSay(cfg, p)
  {
    hide TypeMethod, HeadSays, ChecksSay, Header, Parts.Head, LengthField, CrcField, EccField, TagField, When, SegHeader,
      Low16, High16;
    p := PartsOf(cfg, f, payload);
    HeadOf(cfg, f, payload);
    ChecksOf(cfg, f, payload);
  }

  // The shipped frame, position by position.
  lemma ShippedLayout(f: Fields, payload: seq<bv8>)
    requires |payload| <= 255
    ensures var w, n := Wire(SHIPPED, f, payload), |payload|;
            && |w| == 13 + n
            && w[..3] == [0xC0, 0xDE, 0xA2]
            && (w[3] as bv16) | ((w[4] as bv16) << 8) == f.id
            && w[5] == f.seqByte
            && w[6] as int == n
            && w[7..7 + n] == payload
            && w[7 + n] == Ecc.Parity(payload) && w[8 + n] == Ecc.Locator(payload)
            && (w[9 + n] as bv16) | ((w[10 + n] as bv16) << 8) == Reg16(w[2..9 + n])
            && w[11 + n..] == [0xDA, 0xED]
  {
    hide *;
    var w, n := Wire(SHIPPED, f, payload), |payload|;
    var p := ShippedParts(f, payload);
    Places(w, p, f.seqByte);
    Word16Is(p.id);
    Word16Is(p.crc);
  }

  lemma Word16Is(s: seq<bv8>)
    requires |s| == 2
    ensures Word16(s) == (s[0] as bv16) | ((s[1] as bv16) << 8)
  {
  }

  lemma ShippedParts(f: Fields, payload: seq<bv8>) returns (p: Parts)
    requires |payload| <= 255
    ensures p.Whole() == Wire(SHIPPED, f, payload) && p.payload == payload
    ensures p.flags == 0xA2 && p.address == [] && p.seqNo == [f.seqByte] && p.chunk == [] && p.tag == []
    ensures |p.id| == 2 && Word16(p.id) == f.id
    ensures |p.length| == 1 && p.length[0] as int == |payload|
    ensures p.ecc == [Ecc.Parity(payload), Ecc.Locator(payload)]
    ensures |p.crc| == 2 && Word16(p.crc) == Reg16(p.Covered())
  {
    hide Wire, Parts.Whole, Parts.Covered, Parts.Tagged, Ecc.Parity, Ecc.Locator, Leb128.Encode, SipHash.Tag, FlagsSay, LengthSays,
      Reg16, Reg32, Word16, Word32;
    p := WireLayout(SHIPPED, f, payload);
    ShippedFlags(p.flags);
    ShippedLength(|payload|, p.length);
  }

  lemma ShippedFlags(flags: bv8)
    requires FlagsSay(SHIPPED, flags)
    ensures flags == 0xA2
  {
  }

  lemma ShippedLength(n: nat, l: seq<bv8>)
    requires LengthSays(SHIPPED, n, l) && n <= 255
    ensures |l| == 1 && l[0] as int == n
  {
  }

  lemma Places(w: seq<bv8>, p: Parts, seqByte: bv8)
    requires w == p.Whole()
    requires p.flags == 0xA2 && p.address == [] && p.seqNo == [seqByte] && p.chunk == [] && p.tag == []
    requires |p.id| == 2 && |p.length| == 1 && |p.ecc| == 2 && |p.crc| == 2
    ensures var n := |p.payload|;
            && |w| == 13 + n
            && w[..3] == [0xC0, 0xDE, 0xA2]
            && w[3] == p.id[0] && w[4] == p.id[1]
            && w[5] == seqByte && w[6] == p.length[0]
            && w[7..7 + n] == p.payload
            && w[7 + n] == p.ecc[0] && w[8 + n] == p.ecc[1]
            && w[9 + n] == p.crc[0] && w[10 + n] == p.crc[1]
            && w[2..9 + n] == p.Covered()
            && w[11 + n..] == [0xDA, 0xED]
  {
    var n := |p.payload|;
    assert p.Head() == [0xA2, p.id[0], p.id[1], seqByte, p.length[0]];
    assert w == [0xC0, 0xDE] + p.Head() + p.payload + p.ecc + p.crc + [0xDA, 0xED];
  }
}
