// One frame over the link: what arrives when nothing, or one byte, was altered on the way.
module Link {
  import opened Frame
  import opened Decoder
  import opened Codec
  import opened FrameFate
  import Crc
  import Ecc
  import Lfsr

  // ---- Outcomes ----

  // The bytes are one frame, answered by VALID on its last byte only, and msg is what arrives.
  ghost predicate Delivers(cfg: Config, own: bv8, s: State, bytes: seq<bv8>, msg: Message, repaired: bool) {
    var t := Run(cfg, own, s, bytes).0;
    && Ends(cfg, own, s, bytes, t, Valid)
    && t.phase == Start1 && t.nacks == s.nacks
    && Received(t) == msg && t.corrected == repaired
  }

  // The sender's words about the frame of f and p.
  function EccOf(cfg: Config, p: seq<bv8>): (e: seq<bv8>)
    ensures |e| == Count(cfg.ecc, 2)
  {
    EccField(cfg, p)
  }

  function CrcOfFrame(cfg: Config, f: Fields, p: seq<bv8>): seq<bv8>
    requires |p| < 0x1_0000
  {
    CrcField(cfg, Header(cfg, f, |p|) + p + EccOf(cfg, p))
  }

  function TagOf(cfg: Config, f: Fields, p: seq<bv8>): seq<bv8>
    requires |p| < 0x1_0000
  {
    TagField(cfg, Header(cfg, f, |p|), p, EccOf(cfg, p) + CrcOfFrame(cfg, f, p))
  }

  lemma WireParts(cfg: Config, f: Fields, p: seq<bv8>)
    requires |p| <= MaxPayload(cfg)
    ensures Wire(cfg, f, p) ==
            Prefix(cfg, START1, f, p, EccOf(cfg, p)) + CrcOfFrame(cfg, f, p) + TagOf(cfg, f, p) + [STOP1, STOP2]
  {
    hide Header, CrcField, EccField, TagField;
  }

  lemma PartSizes(cfg: Config, f: Fields, p: seq<bv8>)
    requires |p| <= MaxPayload(cfg)
    ensures Sizes(cfg, p, EccOf(cfg, p), CrcOfFrame(cfg, f, p), TagOf(cfg, f, p))
  {
    hide Header, CrcField, EccField, TagField;
    CrcLength(cfg, Header(cfg, f, |p|) + p + EccOf(cfg, p));
    TagLength(cfg, Header(cfg, f, |p|), p, EccOf(cfg, p) + CrcOfFrame(cfg, f, p));
  }

  lemma TagLength(cfg: Config, header: seq<bv8>, p: seq<bv8>, check: seq<bv8>)
    ensures |TagField(cfg, header, p, check)| == Count(cfg.hmac, 4)
  {
  }

  lemma Deliver(cfg: Config, own: bv8, s: State, b: bv8, f: Fields, p: seq<bv8>, e: seq<bv8>, c: seq<bv8>, m: seq<bv8>,
                q: seq<bv8>, repaired: bool)
    requires s.phase == Start1 && IsStart1(b) && Addressed(cfg, own, f) && Sizes(cfg, p, e, c, m)
    requires Judge(cfg, Header(cfg, f, |p|), p, e, c, m) == Verdict.Deliver(Block(q, repaired))
    ensures Delivers(cfg, own, s, Prefix(cfg, b, f, p, e) + c + m + [STOP1, STOP2], Meant(cfg, f, q), repaired)
  {
    hide Run, Judge, Prefix, Meant, Received, Addressed, IsStart1;
    var t := Delivered(cfg, own, s, b, f, p, e, c, m);
  }

  // ---- Judgements ----

  lemma CodewordStands(p: seq<bv8>)
    ensures Ecc.Decoded(p, Ecc.Parity(p), Ecc.Locator(p)).0 != Ecc.EccCorrected
  {
    Lfsr.XorGroup(Ecc.Parity(p), Ecc.Parity(p), 0);
    Lfsr.XorGroup(Ecc.Locator(p), Ecc.Locator(p), 0);
  }

  // What the sender sends is delivered as it is.
  lemma Honest(cfg: Config, header: seq<bv8>, p: seq<bv8>)
    ensures var e := EccOf(cfg, p);
            var c := CrcField(cfg, header + p + e);
            Judge(cfg, header, p, e, c, TagField(cfg, header, p, e + c)) == Verdict.Deliver(Block(p, false))
  {
    hide CrcField, TagField, EccOf, Ecc.Decoded;
  }

  // One altered byte anywhere under the CRC changes it.
  lemma CrcNotices(cfg: Config, covered: seq<bv8>, k: nat, v: bv8)
    requires cfg.crc.Some? && k < |covered| && v != covered[k]
    ensures CrcField(cfg, covered) != CrcField(cfg, covered[k := v])
  {
    hide Crc.UpdateAll, Crc.Bytes;
    Crc.DetectsOneByte(Crc.Init(cfg.crc.value), covered, k, v);
  }

  lemma PayloadAltered(cfg: Config, header: seq<bv8>, p: seq<bv8>, k: nat, v: bv8)
    requires cfg.crc.Some? && cfg.ecc && |p| <= Ecc.MAX_BLOCK && k < |p| && v != p[k]
    ensures var e := EccOf(cfg, p);
            var c := CrcField(cfg, header + p + e);
            Judge(cfg, header, p[k := v], e, c, TagField(cfg, header, p, e + c)) == Verdict.Deliver(Block(p, true))
  {
    hide CrcField, TagField, Ecc.Decoded, Ecc.Parity, Ecc.Locator;
    var e, p' := EccOf(cfg, p), p[k := v];
    assert header + p' + e == (header + p + e)[|header| + k := v];
    CrcNotices(cfg, header + p + e, |header| + k, v);
    assert Ecc.DiffersAt(p', p, k) by {
      assert p'[k := p[k]] == p;
    }
    assert Ecc.IsCodeword(p, e[0], e[1]);
    Ecc.FindsTheByte(p', e[0], e[1], p, k);
  }

  lemma HeaderAltered(cfg: Config, header: seq<bv8>, k: nat, v: bv8, p: seq<bv8>, m: seq<bv8>)
    requires cfg.crc.Some? && k < |header| && v != header[k]
    ensures var e := EccOf(cfg, p);
            Judge(cfg, header[k := v], p, e, CrcField(cfg, header + p + e), m) == CrcMismatch
  {
    hide CrcField, TagField, Ecc.Decoded, Ecc.Parity, Ecc.Locator;
    var e := EccOf(cfg, p);
    assert header[k := v] + p + e == (header + p + e)[k := v];
    CrcNotices(cfg, header + p + e, k, v);
    CodewordStands(p);
  }

  lemma EccAltered(cfg: Config, header: seq<bv8>, p: seq<bv8>, k: nat, v: bv8, m: seq<bv8>)
    requires cfg.crc.Some? && cfg.ecc && |p| <= Ecc.MAX_BLOCK && k < 2 && v != EccOf(cfg, p)[k]
    ensures var e := EccOf(cfg, p);
            Judge(cfg, header, p, e[k := v], CrcField(cfg, header + p + e), m) == CrcMismatch
  {
    hide CrcField, TagField, Ecc.Decoded, Ecc.Parity, Ecc.Locator;
    var e := EccOf(cfg, p);
    var n := |header + p|;
    assert header + p + e[k := v] == (header + p + e)[n + k := v];
    CrcNotices(cfg, header + p + e, n + k, v);
    OneCheckByte(p, e[k := v][0], e[k := v][1]);
  }

  lemma OneCheckByte(p: seq<bv8>, r0: bv8, r1: bv8)
    requires |p| <= Ecc.MAX_BLOCK && (r0 == Ecc.Parity(p)) != (r1 == Ecc.Locator(p))
    ensures Ecc.Decoded(p, r0, r1).0 != Ecc.EccCorrected
  {
    if |p| > 0 {
      Ecc.AnswersExactly(p, r0, r1);
    }
  }

  lemma CrcAltered(cfg: Config, header: seq<bv8>, p: seq<bv8>, c: seq<bv8>, m: seq<bv8>)
    requires c != CrcField(cfg, header + p + EccOf(cfg, p))
    ensures Judge(cfg, header, p, EccOf(cfg, p), c, m) == CrcMismatch
  {
    hide CrcField, TagField, Ecc.Decoded, Ecc.Parity, Ecc.Locator;
    CodewordStands(p);
  }

  // ---- Every configuration ----

  // What is sent is what arrives, whatever the decoder's state at the start of the frame.
  lemma RoundTrip(cfg: Config, own: bv8, s: State, f: Fields, p: seq<bv8>)
    requires s.phase == Start1 && Addressed(cfg, own, f) && |p| <= MaxPayload(cfg)
    ensures Delivers(cfg, own, s, Wire(cfg, f, p), Meant(cfg, f, p), false)
  {
    hide Delivers, Wire, Header, CrcField, TagField, EccOf, Judge, Prefix, Meant, Addressed;
    WireParts(cfg, f, p);
    PartSizes(cfg, f, p);
    Honest(cfg, Header(cfg, f, |p|), p);
    Deliver(cfg, own, s, START1, f, p, EccOf(cfg, p), CrcOfFrame(cfg, f, p), TagOf(cfg, f, p), p, false);
  }

  // The first n bytes end the frame with answer r and leave the decoder in t.
  ghost predicate Drops(cfg: Config, own: bv8, s: State, bytes: seq<bv8>, n: nat, t: State, r: Ret) {
    n <= |bytes| && Ends(cfg, own, s, bytes[..n], t, r)
  }

  // The last CRC byte, the n-th of all, gets the error. With ARQ one NACK is sent.
  ghost predicate Refuses(cfg: Config, own: bv8, s: State, bytes: seq<bv8>, n: nat, f: Fields) {
    Drops(cfg, own, s, bytes, n, Rejected(cfg, s, f), ErrCrc)
  }

  function Progress(n: nat): seq<Ret> {
    seq(n, i => InProg)
  }

  function Idle(n: nat): seq<Ret> {
    seq(n, i => WaitData)
  }

  // Between frames the decoder passes over bytes that cannot start one.
  ghost predicate Noise(bytes: seq<bv8>) {
    forall i :: 0 <= i < |bytes| ==> !IsStart1(bytes[i])
  }

  lemma {:induction false} NoisePasses(cfg: Config, own: bv8, s: State, bytes: seq<bv8>)
    requires s.phase == Start1 && Noise(bytes)
    ensures Run(cfg, own, s, bytes) == (s, Idle(|bytes|))
    decreases |bytes|
  {
    hide IsStart1, Step;
    if |bytes| > 0 {
      NoiseByte(cfg, own, s, bytes[0]);
      NoisePasses(cfg, own, s, bytes[1..]);
      assert [WaitData] + Idle(|bytes| - 1) == Idle(|bytes|);
    } else {
      assert Idle(0) == [];
    }
  }

  lemma NoiseByte(cfg: Config, own: bv8, s: State, b: bv8)
    requires s.phase == Start1 && !IsStart1(b)
    ensures Step(cfg, own, s, b) == (s, WaitData)
  {
    hide IsStart1, Reset, StepHeader, StepSeg, StepBody, StepCrc, StepMac, StepStop;
  }

  lemma Refuse(cfg: Config, own: bv8, s: State, b: bv8, f: Fields, p: seq<bv8>, e: seq<bv8>, c: seq<bv8>, m: seq<bv8>)
    requires s.phase == Start1 && IsStart1(b) && Addressed(cfg, own, f) && Sizes(cfg, p, e, c, m)
    requires Judge(cfg, Header(cfg, f, |p|), p, e, c, m) == CrcMismatch
    ensures var q := Prefix(cfg, b, f, p, e) + c;
            Refuses(cfg, own, s, q + m + [STOP1, STOP2], |q|, f)
  {
    hide Run, Step, Judge, Prefix, Addressed, IsStart1, Rejected;
    var q := Prefix(cfg, b, f, p, e) + c;
    RejectedByCrc(cfg, own, s, b, f, p, e, c, m);
    assert (q + m + [STOP1, STOP2])[..|q|] == q;
  }

  // ---- One altered byte on the wire ----

  lemma UpdateWithin(a: seq<bv8>, b: seq<bv8>, c: seq<bv8>, k: nat, v: bv8)
    requires k < |b|
    ensures (a + b + c)[|a| + k := v] == a + b[k := v] + c
  {
  }

  function PayloadAt(cfg: Config, f: Fields, p: seq<bv8>): nat
    requires |p| < 0x1_0000
  {
    2 + |Header(cfg, f, |p|)|
  }

  function CheckAt(cfg: Config, f: Fields, p: seq<bv8>): nat
    requires |p| < 0x1_0000
  {
    PayloadAt(cfg, f, p) + |p|
  }

  function CrcAt(cfg: Config, f: Fields, p: seq<bv8>): nat
    requires |p| < 0x1_0000
  {
    CheckAt(cfg, f, p) + |EccOf(cfg, p)|
  }

  function TagAt(cfg: Config, f: Fields, p: seq<bv8>): nat
    requires |p| < 0x1_0000
  {
    CrcAt(cfg, f, p) + |CrcOfFrame(cfg, f, p)|
  }

  function StopAt(cfg: Config, f: Fields, p: seq<bv8>): nat
    requires |p| < 0x1_0000
  {
    TagAt(cfg, f, p) + |TagOf(cfg, f, p)|
  }

  // Any first byte with the high nibble 0xC is as good as the right one.
  lemma StartAltered(cfg: Config, own: bv8, s: State, f: Fields, p: seq<bv8>, v: bv8)
    requires s.phase == Start1 && Addressed(cfg, own, f) && |p| <= MaxPayload(cfg) && 0xC0 <= v <= 0xCF
    ensures Delivers(cfg, own, s, Wire(cfg, f, p)[0 := v], Meant(cfg, f, p), false)
  {
    StartNibble(v);
    hide Delivers, Wire, Header, CrcField, TagField, EccOf, CrcOfFrame, TagOf, Judge, Meant, Addressed, IsStart1;
    var e, c, m := EccOf(cfg, p), CrcOfFrame(cfg, f, p), TagOf(cfg, f, p);
    WireParts(cfg, f, p);
    PartSizes(cfg, f, p);
    HonestFrame(cfg, f, p);
    Deliver(cfg, own, s, v, f, p, e, c, m, p, false);
    assert Wire(cfg, f, p)[0 := v] == Prefix(cfg, v, f, p, e) + c + m + [STOP1, STOP2];
  }

  lemma HonestFrame(cfg: Config, f: Fields, p: seq<bv8>)
    requires |p| <= MaxPayload(cfg)
    ensures Judge(cfg, Header(cfg, f, |p|), p, EccOf(cfg, p), CrcOfFrame(cfg, f, p), TagOf(cfg, f, p)) ==
            Verdict.Deliver(Block(p, false))
  {
    hide Judge, Header, CrcField, TagField, EccOf;
    Honest(cfg, Header(cfg, f, |p|), p);
  }

  // One altered payload byte: the CRC notices it and the check bytes restore it.
  lemma PayloadByteAltered(cfg: Config, own: bv8, s: State, f: Fields, p: seq<bv8>, k: nat, v: bv8)
    requires s.phase == Start1 && Addressed(cfg, own, f) && |p| <= Ecc.MAX_BLOCK
    requires cfg.crc.Some? && cfg.ecc && k < |p| && v != p[k]
    ensures PayloadAt(cfg, f, p) + k < |Wire(cfg, f, p)|
    ensures Delivers(cfg, own, s, Wire(cfg, f, p)[PayloadAt(cfg, f, p) + k := v], Meant(cfg, f, p), true)
  {
    hide Delivers, Wire, Header, CrcField, TagField, EccOf, CrcOfFrame, TagOf, Judge, Meant, Addressed, IsStart1;
    var header, e, c, m := Header(cfg, f, |p|), EccOf(cfg, p), CrcOfFrame(cfg, f, p), TagOf(cfg, f, p);
    WireParts(cfg, f, p);
    PartSizes(cfg, f, p);
    JudgedRepaired(cfg, f, p, k, v);
    StartIsStart();
    Deliver(cfg, own, s, START1, f, p[k := v], e, c, m, p, true);
    var pre, post := [START1, START2] + header, e + c + m + [STOP1, STOP2];
    UpdateWithin(pre, p, post, k, v);
    assert Wire(cfg, f, p) == pre + p + post;
    assert pre + p[k := v] + post == Prefix(cfg, START1, f, p[k := v], e) + c + m + [STOP1, STOP2];
  }

  lemma StartIsStart()
    ensures IsStart1(START1)
  {
  }

  lemma JudgedRepaired(cfg: Config, f: Fields, p: seq<bv8>, k: nat, v: bv8)
    requires cfg.crc.Some? && cfg.ecc && |p| <= Ecc.MAX_BLOCK && k < |p| && v != p[k]
    ensures Judge(cfg, Header(cfg, f, |p|), p[k := v], EccOf(cfg, p), CrcOfFrame(cfg, f, p), TagOf(cfg, f, p)) ==
            Verdict.Deliver(Block(p, true))
  {
    hide Judge, Header, CrcField, TagField, EccOf;
    PayloadAltered(cfg, Header(cfg, f, |p|), p, k, v);
  }

  // One altered header byte that leaves the framing as it was: the frame is refused.
  lemma HeaderByteAltered(cfg: Config, own: bv8, s: State, f: Fields, f': Fields, p: seq<bv8>, k: nat, v: bv8)
    requires s.phase == Start1 && Addressed(cfg, own, f') && |p| <= MaxPayload(cfg)
    requires cfg.crc.Some? && k < |Header(cfg, f, |p|)| && v != Header(cfg, f, |p|)[k]
    requires Header(cfg, f', |p|) == Header(cfg, f, |p|)[k := v]
    ensures 2 + k < |Wire(cfg, f, p)|
    ensures Refuses(cfg, own, s, Wire(cfg, f, p)[2 + k := v], TagAt(cfg, f, p), f')
  {
    hide Refuses, Wire, Header, CrcField, TagField, EccOf, CrcOfFrame, TagOf, Judge, Addressed, IsStart1;
    var header, e, c, m := Header(cfg, f, |p|), EccOf(cfg, p), CrcOfFrame(cfg, f, p), TagOf(cfg, f, p);
    HeaderReplaced(cfg, f, f', p, k, v);
    PartSizes(cfg, f, p);
    SameCrc(cfg, f, p);
    HeaderAltered(cfg, header, k, v, p, m);
    StartIsStart();
    Refuse(cfg, own, s, START1, f', p, e, c, m);
  }

  lemma HeaderReplaced(cfg: Config, f: Fields, f': Fields, p: seq<bv8>, k: nat, v: bv8)
    requires |p| <= MaxPayload(cfg) && k < |Header(cfg, f, |p|)| && Header(cfg, f', |p|) == Header(cfg, f, |p|)[k := v]
    ensures 2 + k < |Wire(cfg, f, p)|
    ensures var q := Prefix(cfg, START1, f', p, EccOf(cfg, p)) + CrcOfFrame(cfg, f, p);
            |q| == TagAt(cfg, f, p) && Wire(cfg, f, p)[2 + k := v] == q + TagOf(cfg, f, p) + [STOP1, STOP2]
  {
    hide Wire, Header, EccOf, CrcOfFrame, TagOf;
    var header, e, c, m := Header(cfg, f, |p|), EccOf(cfg, p), CrcOfFrame(cfg, f, p), TagOf(cfg, f, p);
    WireParts(cfg, f, p);
    var pre, post := [START1, START2], p + e + c + m + [STOP1, STOP2];
    UpdateWithin(pre, header, post, k, v);
    assert Wire(cfg, f, p) == pre + header + post;
    assert pre + header[k := v] + post == Prefix(cfg, START1, f', p, e) + c + m + [STOP1, STOP2];
  }

  lemma SameCrc(cfg: Config, f: Fields, p: seq<bv8>)
    requires |p| < 0x1_0000
    ensures CrcOfFrame(cfg, f, p) == CrcField(cfg, Header(cfg, f, |p|) + p + EccOf(cfg, p))
  {
    hide Header, CrcField, EccOf;
  }

  // One altered check byte: the payload is intact, yet the frame is refused.
  lemma EccByteAltered(cfg: Config, own: bv8, s: State, f: Fields, p: seq<bv8>, k: nat, v: bv8)
    requires s.phase == Start1 && Addressed(cfg, own, f) && |p| <= Ecc.MAX_BLOCK
    requires cfg.crc.Some? && cfg.ecc && k < 2 && v != EccOf(cfg, p)[k]
    ensures CheckAt(cfg, f, p) + k < |Wire(cfg, f, p)|
    ensures Refuses(cfg, own, s, Wire(cfg, f, p)[CheckAt(cfg, f, p) + k := v], TagAt(cfg, f, p), f)
  {
    hide Refuses, Wire, Header, CrcField, TagField, EccOf, CrcOfFrame, TagOf, Judge, Addressed, IsStart1;
    var header, e, c, m := Header(cfg, f, |p|), EccOf(cfg, p), CrcOfFrame(cfg, f, p), TagOf(cfg, f, p);
    WireParts(cfg, f, p);
    PartSizes(cfg, f, p);
    SameCrc(cfg, f, p);
    EccAltered(cfg, header, p, k, v, m);
    StartIsStart();
    Refuse(cfg, own, s, START1, f, p, e[k := v], c, m);
    var pre, post := [START1, START2] + header + p, c + m + [STOP1, STOP2];
    UpdateWithin(pre, e, post, k, v);
    assert Wire(cfg, f, p) == pre + e + post;
    assert pre + e[k := v] + post == Prefix(cfg, START1, f, p, e[k := v]) + c + m + [STOP1, STOP2];
  }

  // Altered CRC bytes: the same.
  lemma CrcByteAltered(cfg: Config, own: bv8, s: State, f: Fields, p: seq<bv8>, k: nat, v: bv8)
    requires s.phase == Start1 && Addressed(cfg, own, f) && |p| <= MaxPayload(cfg)
    requires k < |CrcOfFrame(cfg, f, p)| && v != CrcOfFrame(cfg, f, p)[k]
    ensures CrcAt(cfg, f, p) + k < |Wire(cfg, f, p)|
    ensures Refuses(cfg, own, s, Wire(cfg, f, p)[CrcAt(cfg, f, p) + k := v], TagAt(cfg, f, p), f)
  {
    hide Refuses, Wire, Header, CrcField, TagField, EccOf, CrcOfFrame, TagOf, Judge, Addressed, IsStart1;
    var header, e, c, m := Header(cfg, f, |p|), EccOf(cfg, p), CrcOfFrame(cfg, f, p), TagOf(cfg, f, p);
    WireParts(cfg, f, p);
    PartSizes(cfg, f, p);
    SameCrc(cfg, f, p);
    CrcAltered(cfg, header, p, c[k := v], m);
    StartIsStart();
    Refuse(cfg, own, s, START1, f, p, e, c[k := v], m);
    var pre, post := [START1, START2] + header + p + e, m + [STOP1, STOP2];
    UpdateWithin(pre, c, post, k, v);
    assert Wire(cfg, f, p) == pre + c + post;
    assert pre + c[k := v] + post == Prefix(cfg, START1, f, p, e) + c[k := v] + m + [STOP1, STOP2];
  }

  // An altered tag byte: the last tag byte gets the error, and no NACK is sent.
  lemma TagByteAltered(cfg: Config, own: bv8, s: State, f: Fields, p: seq<bv8>, k: nat, v: bv8)
    requires s.phase == Start1 && Addressed(cfg, own, f) && |p| <= MaxPayload(cfg)
    requires k < |TagOf(cfg, f, p)| && v != TagOf(cfg, f, p)[k]
    ensures TagAt(cfg, f, p) + k < |Wire(cfg, f, p)|
    ensures Drops(cfg, own, s, Wire(cfg, f, p)[TagAt(cfg, f, p) + k := v], StopAt(cfg, f, p), Reset(cfg, s), ErrHmac)
  {
    hide Ends, Wire, Header, CrcField, TagField, EccOf, CrcOfFrame, TagOf, Addressed, IsStart1, Reset;
    var header, e, c, m := Header(cfg, f, |p|), EccOf(cfg, p), CrcOfFrame(cfg, f, p), TagOf(cfg, f, p);
    WireParts(cfg, f, p);
    PartSizes(cfg, f, p);
    HonestFrame(cfg, f, p);
    StartIsStart();
    RejectedByTag(cfg, own, s, START1, f, p, e, c, m[k := v]);
    var pre := [START1, START2] + header + p + e + c;
    UpdateWithin(pre, m, [STOP1, STOP2], k, v);
    assert Wire(cfg, f, p) == pre + m + [STOP1, STOP2];
    assert (pre + m[k := v] + [STOP1, STOP2])[..|pre + m|] == Prefix(cfg, START1, f, p, e) + c + m[k := v];
  }
}
