// The fate of every frame with well-placed fields: delivered, repaired or rejected.
module FrameFate {
  import opened Bytes
  import opened Frame
  import opened Decoder
  import opened Codec
  import opened Receive
  import Crc
  import Ecc
  import Leb128
  import SipHash

  // ---- Up to the CRC ----

  function AfterHeader(cfg: Config, s: State, f: Fields, n: nat): State
    requires n < 0x1_0000
  {
    var h := Header(cfg, f, n);
    Parsed(cfg, Reset(cfg, s), f, n).(crc := CrcOf(cfg, h), hdr := Clip(h))
  }

  function Body(cfg: Config, s: State, f: Fields, p: seq<bv8>, e: seq<bv8>): State
    requires |p| <= MaxPayload(cfg) && |e| == Count(cfg.ecc, 2)
  {
    var h := Header(cfg, f, |p|) + p;
    var t := AfterHeader(cfg, s, f, |p|);
    WithEcc(cfg, t.(data := p + Zeros(MaxPayload(cfg))[|p|..], crc := CrcOf(cfg, h)), h, e)
  }

  lemma BodyBytes(cfg: Config, own: bv8, s: State, b: bv8, f: Fields, p: seq<bv8>, e: seq<bv8>)
    requires s.phase == Start1 && IsStart1(b) && Addressed(cfg, own, f)
    requires |p| <= MaxPayload(cfg) && |e| == Count(cfg.ecc, 2)
    ensures Quiet(cfg, own, s, [b, START2] + Header(cfg, f, |p|) + p + e, Go(Body(cfg, s, f, p, e), NextAfterEcc(cfg)))
  {
    hide Quiet, CrcOf, Clip, Header, Parsed, NextAfterLength, NextAfterData, NextAfterEcc, WithEcc, Zeros, FreshCrc;
    var start, header, r := [b, START2], Header(cfg, f, |p|), Reset(cfg, s);
    var t := AfterHeader(cfg, s, f, |p|);
    var t1, t2 := Begun(cfg, s), Go(t, NextAfterLength(cfg, |p|));
    ParsedKeeps(cfg, r, f, |p|);
    var u := Filled(t, p).(crc := CrcOf(cfg, header + p));
    StartBytes(cfg, own, s, b);
    HeaderBytes(cfg, own, r, f, |p|);
    QuietAppend(cfg, own, s, start, t1, header, t2);
    Payload(cfg, own, t, header, p);
    QuietAppend(cfg, own, s, start + header, t2, p, Go(u, NextAfterData(cfg)));
    EccBytes(cfg, own, u, header + p, e);
    QuietAppend(cfg, own, s, start + header + p, Go(u, NextAfterData(cfg)), e, Go(Body(cfg, s, f, p, e), NextAfterEcc(cfg)));
  }

  lemma ParsedKeeps(cfg: Config, s: State, f: Fields, n: nat)
    ensures var t := Parsed(cfg, s, f, n);
            && t.length == n && t.data == s.data && t.check == s.check && t.crcRx == s.crcRx && t.macRx == s.macRx
            && t.nacks == s.nacks && t.corrected == s.corrected && t.id == f.id
            && (cfg.arq ==> t.seqByte == f.seqByte)
  {
    hide WithSeg;
    SegOnly(Parsed(cfg.(seg := false), s, f, n), f);
  }

  lemma SegOnly(s: State, f: Fields)
    ensures var t := WithSeg(s, f);
            && t.length == s.length && t.data == s.data && t.check == s.check && t.crcRx == s.crcRx && t.macRx == s.macRx
            && t.nacks == s.nacks && t.corrected == s.corrected && t.id == s.id && t.seqByte == s.seqByte
  {
    hide Idx, Total;
  }

  // ---- Verdict ----

  // The payload that survives the CRC and the repair, if any.
  datatype Block = NoBlock | Block(bytes: seq<bv8>, repaired: bool)

  datatype Verdict = Deliver(block: Block) | CrcMismatch | TagMismatch

  function Settle(cfg: Config, header: seq<bv8>, p: seq<bv8>, e: seq<bv8>, c: seq<bv8>): Block
    requires |e| == Count(cfg.ecc, 2)
  {
    if c == CrcField(cfg, header + p + e) then Block(p, false)
    else if cfg.ecc && Ecc.Decoded(p, e[0], e[1]).0 == Ecc.EccCorrected then Block(Ecc.Decoded(p, e[0], e[1]).1, true)
    else NoBlock
  }

  // What the receiver decides about payload p, check bytes e, CRC bytes c and tag bytes m.
  function Judge(cfg: Config, header: seq<bv8>, p: seq<bv8>, e: seq<bv8>, c: seq<bv8>, m: seq<bv8>): Verdict
    requires |e| == Count(cfg.ecc, 2)
  {
    match Settle(cfg, header, p, e, c)
    case NoBlock => CrcMismatch
    case Block(q, r) => if m == TagField(cfg, header, q, e + c) then Deliver(Block(q, r)) else TagMismatch
  }

  predicate Sizes(cfg: Config, p: seq<bv8>, e: seq<bv8>, c: seq<bv8>, m: seq<bv8>) {
    && |p| <= MaxPayload(cfg)
    && |e| == Count(cfg.ecc, 2)
    && |c| == (if cfg.crc.Some? then Crc.Size(cfg.crc.value) else 0)
    && |m| == Count(cfg.hmac, 4)
  }

  lemma BodyKeeps(cfg: Config, s: State, f: Fields, p: seq<bv8>, e: seq<bv8>)
    requires |p| <= MaxPayload(cfg) && |e| == Count(cfg.ecc, 2)
    ensures var t := Body(cfg, s, f, p, e);
            && t.length == |p| && t.data == p + Zeros(MaxPayload(cfg))[|p|..] && t.check == e && t.crcRx == []
            && t.nacks == s.nacks && !t.corrected && t.id == f.id && (cfg.arq ==> t.seqByte == f.seqByte)
            && t.crc == CrcOf(cfg, Header(cfg, f, |p|) + p + e) && t.hdr == Clip(Header(cfg, f, |p|))
            && (cfg.ecc ==> t.ecc0 == e[0] && t.ecc1 == e[1])
  {
    hide CrcOf, Clip, Header, Parsed, Zeros, FreshCrc;
    ParsedKeeps(cfg, Reset(cfg, s), f, |p|);
  }

  lemma RepairKeepsLength(p: seq<bv8>, r0: bv8, r1: bv8)
    ensures |Ecc.Decoded(p, r0, r1).1| == |p|
  {
  }

  // The decoder's CRC check is the judgement above.
  lemma CheckIs(cfg: Config, t: State, header: seq<bv8>, p: seq<bv8>, e: seq<bv8>, rest: seq<bv8>)
    requires cfg.crc.Some? && |e| == Count(cfg.ecc, 2)
    requires t.length == |p| && t.data == p + rest && t.crc == CrcOf(cfg, header + p + e) && !t.corrected
    requires cfg.ecc ==> t.ecc0 == e[0] && t.ecc1 == e[1]
    ensures CheckCrc(cfg, t) ==
            match Settle(cfg, header, p, e, t.crcRx)
            case NoBlock => (Reset(cfg, if cfg.arq then t.(nacks := t.nacks + [SeqNumber(t.seqByte)]) else t), ErrCrc)
            case Block(q, r) => (Go(t.(corrected := r, data := q + rest), NextAfterCrc(cfg)), InProg)
  {
    hide Crc.UpdateAll, Crc.Bytes, Ecc.Decoded, Reset, SeqNumber;
    assert t.data[..|p|] == p && t.data[|p|..] == rest;
    if cfg.ecc {
      RepairKeepsLength(p, e[0], e[1]);
    }
  }

  // Past the CRC with the given block.
  function Checked(cfg: Config, s: State, f: Fields, p: seq<bv8>, e: seq<bv8>, c: seq<bv8>, block: Block): State
    requires |p| <= MaxPayload(cfg) && |e| == Count(cfg.ecc, 2) && block.Block?
  {
    Body(cfg, s, f, p, e).(crcRx := c, check := e + c, corrected := block.repaired,
                           data := block.bytes + Zeros(MaxPayload(cfg))[|p|..])
  }

  // Everything a rejected frame leaves behind: the reset decoder and, with ARQ, a NACK.
  function Rejected(cfg: Config, s: State, f: Fields): State {
    Reset(cfg, if cfg.arq then s.(nacks := s.nacks + [SeqNumber(f.seqByte)]) else s)
  }

  lemma CrcDecides(cfg: Config, own: bv8, s: State, f: Fields, p: seq<bv8>, e: seq<bv8>, c: seq<bv8>, m: seq<bv8>)
    requires Sizes(cfg, p, e, c, m)
    ensures var block := Settle(cfg, Header(cfg, f, |p|), p, e, c);
            var t := Go(Body(cfg, s, f, p, e), NextAfterEcc(cfg));
            if block.NoBlock? then Ends(cfg, own, t, c, Rejected(cfg, s, f), ErrCrc)
            else Quiet(cfg, own, t, c, Go(Checked(cfg, s, f, p, e, c, block), NextAfterCrc(cfg)))
  {
    hide Quiet, Ends, CrcOf, Header, Zeros, CheckCrc, Body, Settle, SeqNumber, NextAfterCrc, FreshCrc;
    var t, header, rest := Body(cfg, s, f, p, e), Header(cfg, f, |p|), Zeros(MaxPayload(cfg))[|p|..];
    BodyKeeps(cfg, s, f, p, e);
    var block := Settle(cfg, header, p, e, c);
    if cfg.crc.Some? {
      CrcBytes(cfg, own, t, c);
      CheckIs(cfg, WithCrc(cfg, t, c), header, p, e, rest);
      if block.Block? {
        EndsQuietly(cfg, own, Go(t, Crc1), c, Go(Checked(cfg, s, f, p, e, c, block), NextAfterCrc(cfg)));
      }
    } else {
      NoCrcSettles(cfg, header, p, e, c);
      assert e + c == e;
      QuietNone(cfg, own, Go(t, NextAfterCrc(cfg)));
    }
  }

  lemma NoCrcSettles(cfg: Config, header: seq<bv8>, p: seq<bv8>, e: seq<bv8>, c: seq<bv8>)
    requires cfg.crc.None? && c == [] && |e| == Count(cfg.ecc, 2)
    ensures Settle(cfg, header, p, e, c) == Block(p, false)
  {
    hide Ecc.Decoded;
  }

  // The decoder's tag check is the judgement above.
  lemma TagDecides(cfg: Config, own: bv8, s: State, f: Fields, p: seq<bv8>, e: seq<bv8>, c: seq<bv8>, m: seq<bv8>)
    requires Sizes(cfg, p, e, c, m)
    requires Settle(cfg, Header(cfg, f, |p|), p, e, c).Block?
    ensures var header := Header(cfg, f, |p|);
            var block := Settle(cfg, header, p, e, c);
            var t := Checked(cfg, s, f, p, e, c, block);
            if m == TagField(cfg, header, block.bytes, e + c)
            then Quiet(cfg, own, Go(t, NextAfterCrc(cfg)), m, Go(if cfg.hmac then t.(macRx := m) else t, Stop1))
            else Ends(cfg, own, Go(t, NextAfterCrc(cfg)), m, Reset(cfg, s), ErrHmac)
  {
    hide Quiet, Ends, CrcOf, Clip, Header, Zeros, CheckTag, Body, FreshCrc, SipHash.Tag, Ecc.Decoded;
    var header := Header(cfg, f, |p|);
    var block := Settle(cfg, header, p, e, c);
    var t := Checked(cfg, s, f, p, e, c, block);
    BodyKeeps(cfg, s, f, p, e);
    if cfg.ecc {
      RepairKeepsLength(p, e[0], e[1]);
    }
    if cfg.hmac {
      MacBytes(cfg, own, t, m);
      CheckTagIs(cfg, Go(t.(macRx := m), Mac4), header, block.bytes, Zeros(MaxPayload(cfg))[|p|..]);
      if m == TagField(cfg, header, block.bytes, e + c) {
        EndsQuietly(cfg, own, Go(t, Mac1), m, Go(t.(macRx := m), Stop1));
      }
    } else {
      QuietNone(cfg, own, Go(t, Stop1));
    }
  }

  lemma CheckTagIs(cfg: Config, t: State, header: seq<bv8>, q: seq<bv8>, rest: seq<bv8>)
    requires cfg.hmac && t.length == |q| && t.data == q + rest && t.hdr == Clip(header)
    ensures CheckTag(cfg, t) ==
            if t.macRx == TagField(cfg, header, q, t.check) then (Go(t, Stop1), InProg) else (Reset(cfg, t), ErrHmac)
  {
    hide Clip, SipHash.Tag, Bytes32, Reset;
    assert t.data[..|q| % 256] == q[..|q| % 256];
  }

  // ---- The three fates ----

  function Prefix(cfg: Config, b: bv8, f: Fields, p: seq<bv8>, e: seq<bv8>): seq<bv8>
    requires |p| < 0x1_0000
  {
    [b, START2] + Header(cfg, f, |p|) + p + e
  }

  lemma RejectedByCrc(cfg: Config, own: bv8, s: State, b: bv8, f: Fields, p: seq<bv8>, e: seq<bv8>, c: seq<bv8>, m: seq<bv8>)
    requires s.phase == Start1 && IsStart1(b) && Addressed(cfg, own, f) && Sizes(cfg, p, e, c, m)
    requires Judge(cfg, Header(cfg, f, |p|), p, e, c, m) == CrcMismatch
    ensures Ends(cfg, own, s, Prefix(cfg, b, f, p, e) + c, Rejected(cfg, s, f), ErrCrc)
  {
    hide Quiet, Ends, Header, Body, Settle, Rejected, Addressed;
    BodyBytes(cfg, own, s, b, f, p, e);
    CrcDecides(cfg, own, s, f, p, e, c, m);
    EndsAppend(cfg, own, s, Prefix(cfg, b, f, p, e), Go(Body(cfg, s, f, p, e), NextAfterEcc(cfg)), c, Rejected(cfg, s, f), ErrCrc);
  }

  lemma CheckedBytes(cfg: Config, own: bv8, s: State, b: bv8, f: Fields, p: seq<bv8>, e: seq<bv8>, c: seq<bv8>, m: seq<bv8>)
    requires s.phase == Start1 && IsStart1(b) && Addressed(cfg, own, f) && Sizes(cfg, p, e, c, m)
    requires Settle(cfg, Header(cfg, f, |p|), p, e, c).Block?
    ensures var block := Settle(cfg, Header(cfg, f, |p|), p, e, c);
            Quiet(cfg, own, s, Prefix(cfg, b, f, p, e) + c, Go(Checked(cfg, s, f, p, e, c, block), NextAfterCrc(cfg)))
  {
    hide Quiet, Ends, Header, Body, Settle, Checked, Addressed;
    var block := Settle(cfg, Header(cfg, f, |p|), p, e, c);
    BodyBytes(cfg, own, s, b, f, p, e);
    CrcDecides(cfg, own, s, f, p, e, c, m);
    QuietAppend(cfg, own, s, Prefix(cfg, b, f, p, e), Go(Body(cfg, s, f, p, e), NextAfterEcc(cfg)), c,
                Go(Checked(cfg, s, f, p, e, c, block), NextAfterCrc(cfg)));
  }

  lemma RejectedByTag(cfg: Config, own: bv8, s: State, b: bv8, f: Fields, p: seq<bv8>, e: seq<bv8>, c: seq<bv8>, m: seq<bv8>)
    requires s.phase == Start1 && IsStart1(b) && Addressed(cfg, own, f) && Sizes(cfg, p, e, c, m)
    requires Judge(cfg, Header(cfg, f, |p|), p, e, c, m) == TagMismatch
    ensures Ends(cfg, own, s, Prefix(cfg, b, f, p, e) + c + m, Reset(cfg, s), ErrHmac)
  {
    hide Quiet, Ends, Header, Body, Settle, Checked, Addressed, TagField, Reset;
    var block := Settle(cfg, Header(cfg, f, |p|), p, e, c);
    CheckedBytes(cfg, own, s, b, f, p, e, c, m);
    TagDecides(cfg, own, s, f, p, e, c, m);
    EndsAppend(cfg, own, s, Prefix(cfg, b, f, p, e) + c, Go(Checked(cfg, s, f, p, e, c, block), NextAfterCrc(cfg)), m,
               Reset(cfg, s), ErrHmac);
  }

  // What the application is handed.
  datatype Message = Message(id: bv16, src: bv8, seqByte: bv8, stream: bv8, idx: bv32, total: bv32, payload: seq<bv8>)

  function Received(s: State): Message {
    Message(s.id, s.src, s.seqByte, s.stream, s.idx, s.total, s.data[..if s.length <= |s.data| then s.length else |s.data|])
  }

  // What a sender means by its fields: those compiled in, the chunk numbers as 28 bits.
  function Meant(cfg: Config, f: Fields, payload: seq<bv8>): Message {
    var m := Message(f.id, 0, 0, 0, 0, 0, payload);
    var m1 := if cfg.target then m.(src := f.src) else m;
    var m2 := if cfg.arq then m1.(seqByte := f.seqByte) else m1;
    if cfg.seg then m2.(stream := f.stream, idx := Leb128.Low28(f.idx), total := Leb128.Low28(f.total)) else m2
  }

  lemma Delivered(cfg: Config, own: bv8, s: State, b: bv8, f: Fields, p: seq<bv8>, e: seq<bv8>, c: seq<bv8>, m: seq<bv8>)
    returns (t: State)
    requires s.phase == Start1 && IsStart1(b) && Addressed(cfg, own, f) && Sizes(cfg, p, e, c, m)
    requires Judge(cfg, Header(cfg, f, |p|), p, e, c, m).Deliver?
    ensures Ends(cfg, own, s, Prefix(cfg, b, f, p, e) + c + m + [STOP1, STOP2], t, Valid)
    ensures var block := Judge(cfg, Header(cfg, f, |p|), p, e, c, m).block;
            && t.phase == Start1 && t.nacks == s.nacks
            && Received(t) == Meant(cfg, f, block.bytes) && t.corrected == block.repaired
  {
    hide Quiet, Ends, Header, Settle, Checked, Addressed, TagField, Meant;
    var block := Settle(cfg, Header(cfg, f, |p|), p, e, c);
    var u := Checked(cfg, s, f, p, e, c, block);
    var v := if cfg.hmac then u.(macRx := m) else u;
    t := Go(v, Start1);
    var q := Prefix(cfg, b, f, p, e) + c;
    CheckedBytes(cfg, own, s, b, f, p, e, c, m);
    TagDecides(cfg, own, s, f, p, e, c, m);
    QuietAppend(cfg, own, s, q, Go(u, NextAfterCrc(cfg)), m, Go(v, Stop1));
    StopBytes(cfg, own, v);
    EndsAppend(cfg, own, s, q + m, Go(v, Stop1), [STOP1, STOP2], t, Valid);
    CheckedMeans(cfg, s, f, p, e, c);
  }

  lemma CheckedMeans(cfg: Config, s: State, f: Fields, p: seq<bv8>, e: seq<bv8>, c: seq<bv8>)
    requires |p| <= MaxPayload(cfg) && |e| == Count(cfg.ecc, 2)
    requires Settle(cfg, Header(cfg, f, |p|), p, e, c).Block?
    ensures var block := Settle(cfg, Header(cfg, f, |p|), p, e, c);
            var t := Checked(cfg, s, f, p, e, c, block);
            Received(t) == Meant(cfg, f, block.bytes) && t.corrected == block.repaired && t.nacks == s.nacks
  {
    hide CrcOf, Clip, Header, Zeros, FreshCrc, Ecc.Decoded, Body, Parsed;
    BodyKeeps(cfg, s, f, p, e);
    BodyFields(cfg, s, f, p, e);
    ParsedFields(cfg, Reset(cfg, s), f, |p|);
    if cfg.ecc {
      RepairKeepsLength(p, e[0], e[1]);
    }
    var block := Settle(cfg, Header(cfg, f, |p|), p, e, c);
    assert (block.bytes + Zeros(MaxPayload(cfg))[|p|..])[..|p|] == block.bytes;
  }

  lemma BodyFields(cfg: Config, s: State, f: Fields, p: seq<bv8>, e: seq<bv8>)
    requires |p| <= MaxPayload(cfg) && |e| == Count(cfg.ecc, 2)
    ensures var t, u := Body(cfg, s, f, p, e), Parsed(cfg, Reset(cfg, s), f, |p|);
            t.id == u.id && t.src == u.src && t.seqByte == u.seqByte && t.stream == u.stream && t.idx == u.idx && t.total == u.total
  {
    hide CrcOf, Clip, Header, Zeros, FreshCrc, Parsed, Reset;
  }

  lemma ParsedFields(cfg: Config, r: State, f: Fields, n: nat)
    requires r.src == 0 && r.seqByte == 0 && r.stream == 0 && r.idx == 0 && r.total == 0
    ensures var u, m := Parsed(cfg, r, f, n), Meant(cfg, f, []);
            && u.id == m.id && u.src == m.src && u.seqByte == m.seqByte
            && u.stream == m.stream && u.idx == m.idx && u.total == m.total
  {
    hide Idx, Total, Leb128.Low28;
    NumbersArrive(f);
    if cfg.seg {
      if cfg.arq {
        if cfg.target {
        }
      } else if cfg.target {
      }
    } else if cfg.arq {
      if cfg.target {
      }
    } else if cfg.target {
    }
  }

  lemma NumbersArrive(f: Fields)
    ensures Idx(f) == Leb128.Low28(f.idx) && Total(f).value == Leb128.Low28(f.total)
  {
    hide Leb128.AbsorbAll, Leb128.Encode, Leb128.Low28;
    Leb128.RecoversLow28(f.idx);
    Leb128.RecoversLow28(f.total);
  }
}
