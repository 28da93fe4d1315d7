// Alterations of a frame that the receiver takes for something else, or does not notice at all.
module Undetected {
  import opened Frame
  import opened Decoder
  import opened Codec
  import opened FrameFate
  import opened Link
  import Crc
  import Ecc

  // The frame of f and p with u in the place of its payload.
  function WithPayload(cfg: Config, f: Fields, p: seq<bv8>, u: seq<bv8>): seq<bv8>
    requires |p| == |u| <= MaxPayload(cfg)
  {
    WirePayload(cfg, f, p);
    Wire(cfg, f, p)[..PayloadAt(cfg, f, p)] + u + Wire(cfg, f, p)[CheckAt(cfg, f, p)..]
  }

  lemma WirePayload(cfg: Config, f: Fields, p: seq<bv8>)
    requires |p| <= MaxPayload(cfg)
    ensures CheckAt(cfg, f, p) <= |Wire(cfg, f, p)|
    ensures Wire(cfg, f, p)[PayloadAt(cfg, f, p)..CheckAt(cfg, f, p)] == p
  {
    hide Wire, Header, EccOf, CrcOfFrame, TagOf;
    WireParts(cfg, f, p);
  }

  lemma WithPayloadParts(cfg: Config, f: Fields, p: seq<bv8>, u: seq<bv8>)
    requires |p| == |u| <= MaxPayload(cfg)
    ensures var q := Prefix(cfg, START1, f, u, EccOf(cfg, p)) + CrcOfFrame(cfg, f, p);
            |q| == TagAt(cfg, f, p) && WithPayload(cfg, f, p, u) == q + TagOf(cfg, f, p) + [STOP1, STOP2]
  {
    hide Wire, Header, EccOf, CrcOfFrame, TagOf;
    WireParts(cfg, f, p);
    WirePayload(cfg, f, p);
    var w, e, c, m := Wire(cfg, f, p), EccOf(cfg, p), CrcOfFrame(cfg, f, p), TagOf(cfg, f, p);
    assert w[..PayloadAt(cfg, f, p)] == [START1, START2] + Header(cfg, f, |p|);
    assert w[CheckAt(cfg, f, p)..] == e + c + m + [STOP1, STOP2];
  }

  // The receiver's verdict on such a frame.
  function VerdictOn(cfg: Config, f: Fields, p: seq<bv8>, u: seq<bv8>): Verdict
    requires |p| == |u| <= MaxPayload(cfg)
  {
    Judge(cfg, Header(cfg, f, |p|), u, EccOf(cfg, p), CrcOfFrame(cfg, f, p), TagOf(cfg, f, p))
  }

  lemma AltSizes(cfg: Config, f: Fields, p: seq<bv8>, u: seq<bv8>)
    requires |p| == |u| <= MaxPayload(cfg)
    ensures Sizes(cfg, u, EccOf(cfg, p), CrcOfFrame(cfg, f, p), TagOf(cfg, f, p))
  {
    hide EccOf, CrcOfFrame, TagOf;
    PartSizes(cfg, f, p);
  }

  lemma DeliversAs(cfg: Config, own: bv8, s: State, f: Fields, p: seq<bv8>, u: seq<bv8>, q: seq<bv8>, repaired: bool)
    requires s.phase == Start1 && Addressed(cfg, own, f) && |p| == |u| <= MaxPayload(cfg)
    requires VerdictOn(cfg, f, p, u) == Verdict.Deliver(Block(q, repaired))
    ensures Delivers(cfg, own, s, WithPayload(cfg, f, p, u), Meant(cfg, f, q), repaired)
  {
    hide Delivers, WithPayload, Wire, Header, EccOf, CrcOfFrame, TagOf, Judge, Meant, Addressed, IsStart1;
    WithPayloadParts(cfg, f, p, u);
    AltSizes(cfg, f, p, u);
    StartIsStart();
    Link.Deliver(cfg, own, s, START1, f, u, EccOf(cfg, p), CrcOfFrame(cfg, f, p), TagOf(cfg, f, p), q, repaired);
  }

  lemma NotDelivered(cfg: Config, own: bv8, s: State, f: Fields, p: seq<bv8>, u: seq<bv8>, msg: Message, repaired: bool)
    requires s.phase == Start1 && Addressed(cfg, own, f) && |p| == |u| <= MaxPayload(cfg)
    requires VerdictOn(cfg, f, p, u) == CrcMismatch
    ensures !Delivers(cfg, own, s, WithPayload(cfg, f, p, u), msg, repaired)
  {
    hide Ends, WithPayload, Wire, Header, EccOf, CrcOfFrame, TagOf, Judge, Addressed, IsStart1, Rejected;
    WithPayloadParts(cfg, f, p, u);
    AltSizes(cfg, f, p, u);
    StartIsStart();
    Refuse(cfg, own, s, START1, f, u, EccOf(cfg, p), CrcOfFrame(cfg, f, p), TagOf(cfg, f, p));
    var w := WithPayload(cfg, f, p, u);
    if Delivers(cfg, own, s, w, msg, repaired) {
      OneEnd(cfg, own, s, w, TagAt(cfg, f, p), Rejected(cfg, s, f), ErrCrc, Run(cfg, own, s, w).0);
    }
  }

  // Bytes that end early with an error do not end with VALID.
  lemma OneEnd(cfg: Config, own: bv8, s: State, bytes: seq<bv8>, n: nat, t: State, r: Ret, u: State)
    requires n < |bytes| && r != InProg && Ends(cfg, own, s, bytes[..n], t, r)
    ensures !Ends(cfg, own, s, bytes, u, Valid)
  {
    hide Run;
    assert bytes == bytes[..n] + bytes[n..];
    RunAppend(cfg, own, s, bytes[..n], bytes[n..]);
    assert Run(cfg, own, s, bytes).1[n - 1] == r;
  }

  // ---- Two altered payload bytes ----

  // A repaired block is not checked against the CRC again. So two wrong bytes can make a frame
  // arrive with contents that were never sent: for every payload of three bytes or more some two
  // do, and for shorter payloads none do.
  lemma TwoBytesDeceive(cfg: Config, own: bv8, s: State, f: Fields, p: seq<bv8>)
    requires s.phase == Start1 && Addressed(cfg, own, f) && cfg.crc.Some? && cfg.ecc && !cfg.hmac
    requires |p| <= Ecc.MAX_BLOCK
    ensures (exists u: seq<bv8>, q: seq<bv8>, repaired: bool ::
               && |u| == |p| && Ecc.Distance(p, u) == 2 && q != p
               && Delivers(cfg, own, s, WithPayload(cfg, f, p, u), Meant(cfg, f, q), repaired))
       <==> |p| >= 3
  {
    hide Delivers, WithPayload, Meant, Addressed, Ecc.Distance, VerdictOn;
    if |p| >= 3 {
      var u, q, repaired := Deceiving(cfg, f, p);
      DeliversAs(cfg, own, s, f, p, u, q, repaired);
    } else {
      forall u: seq<bv8>, q: seq<bv8>, repaired: bool | |u| == |p| && Ecc.Distance(p, u) == 2
        ensures !Delivers(cfg, own, s, WithPayload(cfg, f, p, u), Meant(cfg, f, q), repaired)
      {
        ShortNoticed(cfg, f, p, u);
        NotDelivered(cfg, own, s, f, p, u, Meant(cfg, f, q), repaired);
      }
    }
  }

  lemma Deceiving(cfg: Config, f: Fields, p: seq<bv8>) returns (u: seq<bv8>, q: seq<bv8>, repaired: bool)
    requires cfg.crc.Some? && cfg.ecc && !cfg.hmac && 3 <= |p| <= Ecc.MAX_BLOCK
    ensures |u| == |p| && Ecc.Distance(p, u) == 2 && q != p
    ensures VerdictOn(cfg, f, p, u) == Verdict.Deliver(Block(q, repaired))
  {
    hide Header, CrcField, Ecc.Decoded, Ecc.Parity, Ecc.Locator, Ecc.Distance, Crc.UpdateAll;
    u := Ecc.Miscorrected(p);
    SameOrDistant(p, u);
    if CrcOfFrame(cfg, f, p) == CrcField(cfg, Header(cfg, f, |p|) + u + EccOf(cfg, p)) {
      q, repaired := u, false;
    } else {
      q, repaired := Ecc.Decoded(u, Ecc.Parity(p), Ecc.Locator(p)).1, true;
    }
  }

  lemma SameOrDistant(p: seq<bv8>, u: seq<bv8>)
    requires |p| == |u| && Ecc.Distance(p, u) > 0
    ensures u != p
  {
    hide Ecc.Distance;
    Ecc.DistanceZero(p, u);
  }

  lemma ShortNoticed(cfg: Config, f: Fields, p: seq<bv8>, u: seq<bv8>)
    requires cfg.crc.Some? && cfg.ecc && |u| == |p| <= 2 && Ecc.Distance(p, u) == 2
    ensures VerdictOn(cfg, f, p, u) == CrcMismatch
  {
    hide Header, CrcField, TagField, Ecc.Decoded, Ecc.Parity, Ecc.Locator, Ecc.Distance;
    Ecc.DistanceBound(p, u);
    Ecc.ShortBlockNotMiscorrected(p, u);
    SameOrDistant(p, u);
    var h, e := Header(cfg, f, 2), EccOf(cfg, p);
    assert h + u + e == (h + p + e)[|h| := u[0]][|h| + 1 := u[1]];
    PairNoticed(cfg, h + p + e, |h|, u[0], u[1]);
  }

  lemma PairNoticed(cfg: Config, covered: seq<bv8>, k: nat, a: bv8, b: bv8)
    requires cfg.crc.Some? && k + 1 < |covered| && (covered[k] != a || covered[k + 1] != b)
    ensures CrcField(cfg, covered) != CrcField(cfg, covered[k := a][k + 1 := b])
  {
    hide Crc.UpdateAll, Crc.Bytes;
    Crc.DetectsTwoNeighbours(Crc.Init(cfg.crc.value), covered, k, a, b);
  }

  // ---- What the tag covers ----

  // The tag distinguishes payloads of the length of p exactly if they have less than 256 bytes.
  lemma PayloadTagged(header: seq<bv8>, p: seq<bv8>, check: seq<bv8>)
    ensures (forall q: seq<bv8> :: |q| == |p| && TagInput(header, q, check) == TagInput(header, p, check) ==> q == p)
       <==> |p| < 256
  {
    var n, h := |p| % 256, Clip(header);
    if |p| < 256 {
      forall q: seq<bv8> | |q| == |p| && TagInput(header, q, check) == TagInput(header, p, check) ensures q == p {
        hide Clip;
        assert q == TagInput(header, q, check)[|h|..|h| + n] && p == TagInput(header, p, check)[|h|..|h| + n];
      }
    } else {
      hide Clip;
      var q := p[|p| - 1 := p[|p| - 1] ^ 0x01];
      Crc.Altered(p[|p| - 1]);
      assert q[..n] == p[..n];
      assert TagInput(header, q, check) == TagInput(header, p, check) && q[|p| - 1] != p[|p| - 1];
    }
  }

  // It distinguishes headers of the length of h exactly if they have at most 16 bytes.
  lemma HeaderTagged(h: seq<bv8>, p: seq<bv8>, check: seq<bv8>)
    ensures (forall g: seq<bv8> :: |g| == |h| && TagInput(g, p, check) == TagInput(h, p, check) ==> g == h) <==> |h| <= 16
  {
    if |h| <= 16 {
      forall g: seq<bv8> | |g| == |h| && TagInput(g, p, check) == TagInput(h, p, check) ensures g == h {
        assert g == TagInput(g, p, check)[..|h|] && h == TagInput(h, p, check)[..|h|];
      }
    } else {
      var g := h[16 := h[16] ^ 0x01];
      Crc.Altered(h[16]);
      assert g[..16] == h[..16];
      assert TagInput(g, p, check) == TagInput(h, p, check) && g[16] != h[16];
    }
  }

  // In a build with HMAC and 16-bit lengths every frame with at least 256 bytes of payload can be
  // altered so that neither the CRC nor the tag changes, and is then delivered as it is.
  lemma LongPayloadUnprotected(cfg: Config, own: bv8, s: State, f: Fields, p: seq<bv8>) returns (q: seq<bv8>)
    requires s.phase == Start1 && Addressed(cfg, own, f) && ValidConfig(cfg) && cfg.hmac && cfg.len16
    requires 256 <= |p| <= MaxPayload(cfg)
    ensures |q| == |p| && q != p && q[..|p| % 256] == p[..|p| % 256]
    ensures Delivers(cfg, own, s, WithPayload(cfg, f, p, q), Meant(cfg, f, q), false)
  {
    hide Delivers, WithPayload, Meant, Addressed, VerdictOn, Header, Crc.UpdateAll, Crc.Bytes;
    var n, h := |p| % 256, Header(cfg, f, |p|);
    var c := Crc.UpdateAll(Crc.Init(cfg.crc.value), h + p[..n]);
    var t := Crc.Unnoticed(c, p[n..]);
    q := p[..n] + t;
    assert q[n..] == t;
    Crc.UpdateAllAppend(Crc.Init(cfg.crc.value), h + p[..n], p[n..]);
    Crc.UpdateAllAppend(Crc.Init(cfg.crc.value), h + p[..n], t);
    assert h + p == h + p[..n] + p[n..] && h + q == h + p[..n] + t;
    Unaltered(cfg, f, p, q);
    DeliversAs(cfg, own, s, f, p, q, q, false);
  }

  lemma Unaltered(cfg: Config, f: Fields, p: seq<bv8>, q: seq<bv8>)
    requires |q| == |p| <= MaxPayload(cfg) && q[..|p| % 256] == p[..|p| % 256] && !cfg.ecc && cfg.crc.Some?
    requires var h, c := Header(cfg, f, |p|), Crc.Init(cfg.crc.value);
             Crc.UpdateAll(c, h + p) == Crc.UpdateAll(c, h + q)
    ensures VerdictOn(cfg, f, p, q) == Verdict.Deliver(Block(q, false))
  {
    hide Header, Crc.UpdateAll, Crc.Bytes;
    var h := Header(cfg, f, |p|);
    assert h + p + [] == h + p && h + q + [] == h + q;
  }
}
