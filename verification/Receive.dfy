// From the end of the header to the verdict on a frame.
module Receive {
  import opened Frame
  import opened Wrappers
  import opened Decoder
  import opened Codec
  import Crc

  // ---- Payload ----

  lemma CrcFeedReads(cfg: Config, h: seq<bv8>, b: bv8)
    ensures CrcFeed(cfg, CrcOf(cfg, h), b) == CrcOf(cfg, h + [b])
  {
    hide Crc.Update, Crc.UpdateAll;
    if cfg.crc.Some? {
      Crc.UpdateAllSnoc(Crc.Init(cfg.crc.value), h, b);
    }
  }

  lemma AfterDataIs(cfg: Config, s: State)
    ensures AfterData(cfg, s) == Go(s, NextAfterData(cfg)) && NextAfterData(cfg) != Start1
  {
  }

  // A payload byte in its place.
  function Stored(cfg: Config, s: State, h: seq<bv8>, b: bv8): State
    requires s.index < |s.data|
  {
    s.(data := s.data[s.index := b], index := s.index + 1, crc := CrcOf(cfg, h + [b]))
  }

  lemma DataByte(cfg: Config, own: bv8, s: State, h: seq<bv8>, b: bv8)
    requires s.phase == Data && s.index < s.length && s.index < |s.data| && s.crc == CrcOf(cfg, h)
    ensures var t := Stored(cfg, s, h, b);
            Quiet(cfg, own, s, [b], if t.index == s.length then Go(t, NextAfterData(cfg)) else t)
  {
    hide CrcOf, CrcFeed, AfterData, NextAfterData, Quiet, Reset,
         StepStart, StepHeader, StepSeg, StepCrc, StepMac, StepStop;
    CrcFeedReads(cfg, h, b);
    AfterDataIs(cfg, Stored(cfg, s, h, b));
    QuietStep(cfg, own, s, b);
  }

  // The rest of the payload, ending the field.
  lemma {:induction false} DataBytes(cfg: Config, own: bv8, s: State, h: seq<bv8>, p: seq<bv8>)
    requires s.phase == Data && |p| > 0 && s.index + |p| == s.length <= |s.data| && s.crc == CrcOf(cfg, h)
    ensures Quiet(cfg, own, s, p,
                  Go(s.(data := s.data[..s.index] + p + s.data[s.length..], crc := CrcOf(cfg, h + p)), NextAfterData(cfg)))
    decreases |p|
  {
    hide CrcOf, Quiet;
    var t := Stored(cfg, s, h, p[0]);
    DataByte(cfg, own, s, h, p[0]);
    if |p| == 1 {
      assert p == [p[0]];
      assert t.data == s.data[..s.index] + p + s.data[s.length..];
    } else {
      DataBytes(cfg, own, t, h + [p[0]], p[1..]);
      assert h + [p[0]] + p[1..] == h + p && [p[0]] + p[1..] == p;
      assert t.data[..t.index] + p[1..] + t.data[s.length..] == s.data[..s.index] + p + s.data[s.length..];
      QuietAppend(cfg, own, s, [p[0]], t, p[1..],
                  Go(s.(data := s.data[..s.index] + p + s.data[s.length..], crc := CrcOf(cfg, h + p)), NextAfterData(cfg)));
    }
  }

  function Filled(s: State, p: seq<bv8>): State
    requires |p| <= |s.data|
  {
    s.(data := p + s.data[|p|..])
  }

  lemma Payload(cfg: Config, own: bv8, s: State, h: seq<bv8>, p: seq<bv8>)
    requires s.length == |p| <= |s.data| && s.crc == CrcOf(cfg, h)
    ensures Quiet(cfg, own, Go(s, NextAfterLength(cfg, |p|)), p,
                  Go(Filled(s, p).(crc := CrcOf(cfg, h + p)), NextAfterData(cfg)))
  {
    hide CrcOf, Quiet;
    if |p| == 0 {
      assert h + p == h && p + s.data[0..] == s.data;
      QuietNone(cfg, own, Go(s, NextAfterData(cfg)));
    } else {
      DataBytes(cfg, own, Go(s, Data), h, p);
      assert s.data[..0] + p == p;
    }
  }

  // ---- Check bytes ----

  lemma EccBytes(cfg: Config, own: bv8, s: State, h: seq<bv8>, e: seq<bv8>)
    requires |e| == Count(cfg.ecc, 2) && s.crc == CrcOf(cfg, h) && s.check == []
    ensures Quiet(cfg, own, Go(s, NextAfterData(cfg)), e, Go(WithEcc(cfg, s, h, e), NextAfterEcc(cfg)))
  {
    hide CrcOf, Quiet;
    if cfg.ecc {
      var t := s.(ecc0 := e[0], crc := CrcOf(cfg, h + [e[0]]), check := [e[0]]);
      Ecc0Byte(cfg, own, s, h, e[0]);
      Ecc1Byte(cfg, own, t, h + [e[0]], e[1]);
      assert h + [e[0]] + [e[1]] == h + e && [e[0]] + [e[1]] == e;
      QuietAppend(cfg, own, Go(s, Ecc0), [e[0]], Go(t, Ecc1), [e[1]], Go(WithEcc(cfg, s, h, e), NextAfterEcc(cfg)));
    } else {
      assert h + e == h;
      QuietNone(cfg, own, Go(s, NextAfterEcc(cfg)));
    }
  }

  function WithEcc(cfg: Config, s: State, h: seq<bv8>, e: seq<bv8>): State
    requires |e| == Count(cfg.ecc, 2)
  {
    var t := s.(crc := CrcOf(cfg, h + e), check := e);
    if cfg.ecc then t.(ecc0 := e[0], ecc1 := e[1]) else t
  }

  lemma Ecc0Byte(cfg: Config, own: bv8, s: State, h: seq<bv8>, b: bv8)
    requires cfg.ecc && s.crc == CrcOf(cfg, h) && s.check == []
    ensures Quiet(cfg, own, Go(s, Ecc0), [b], Go(s.(ecc0 := b, crc := CrcOf(cfg, h + [b]), check := [b]), Ecc1))
  {
    hide CrcOf, CrcFeed, Quiet, Reset,
         StepStart, StepHeader, StepSeg, StepCrc, StepMac, StepStop;
    CrcFeedReads(cfg, h, b);
    assert [] + [b] == [b];
    QuietStep(cfg, own, Go(s, Ecc0), b);
  }

  lemma Ecc1Byte(cfg: Config, own: bv8, s: State, h: seq<bv8>, b: bv8)
    requires cfg.ecc && s.crc == CrcOf(cfg, h) && |s.check| == 1
    ensures Quiet(cfg, own, Go(s, Ecc1), [b],
                  Go(s.(ecc1 := b, crc := CrcOf(cfg, h + [b]), check := s.check + [b]), NextAfterEcc(cfg)))
  {
    hide CrcOf, CrcFeed, Quiet, Reset,
         StepStart, StepHeader, StepSeg, StepCrc, StepMac, StepStop;
    CrcFeedReads(cfg, h, b);
    QuietStep(cfg, own, Go(s, Ecc1), b);
  }

  // The state in which the CRC is judged.
  function WithCrc(cfg: Config, s: State, c: seq<bv8>): State {
    Go(s.(crcRx := c, check := s.check + c), if cfg.crc == Some(Crc.Kind32) then Crc4 else Crc2)
  }

  // All CRC bytes but the last are taken quietly; the last one gets the verdict.
  lemma CrcBytes(cfg: Config, own: bv8, s: State, c: seq<bv8>)
    requires cfg.crc.Some? && |c| == Crc.Size(cfg.crc.value) && |s.check| <= 2
    ensures var (t, r) := CheckCrc(cfg, WithCrc(cfg, s, c));
            Ends(cfg, own, Go(s, Crc1), c, t, r)
  {
    hide CheckCrc, Quiet, Ends;
    var k, s0 := s.check, Go(s, Crc1);
    var (t, r) := CheckCrc(cfg, WithCrc(cfg, s, c));
    var s1 := Go(s.(crcRx := c[..1], check := k + c[..1]), Crc2);
    FirstCrcByte(cfg, own, s, c);
    if cfg.crc == Some(Crc.Kind32) {
      var s2, s3 := Go(s.(crcRx := c[..2], check := k + c[..2]), Crc3), Go(s.(crcRx := c[..3], check := k + c[..3]), Crc4);
      MiddleCrcByte(cfg, own, s, c, 1);
      MiddleCrcByte(cfg, own, s, c, 2);
      LastCrcByte(cfg, own, s, c);
      QuietAppend(cfg, own, s0, [c[0]], s1, [c[1]], s2);
      QuietAppend(cfg, own, s0, [c[0]] + [c[1]], s2, [c[2]], s3);
      EndsAppend(cfg, own, s0, [c[0]] + [c[1]] + [c[2]], s3, [c[3]], t, r);
      assert [c[0]] + [c[1]] + [c[2]] + [c[3]] == c;
    } else {
      LastCrcByte(cfg, own, s, c);
      EndsAppend(cfg, own, s0, [c[0]], s1, [c[1]], t, r);
      assert [c[0]] + [c[1]] == c;
    }
  }

  function CrcPhase(i: nat): Phase {
    if i == 0 then Crc1 else if i == 1 then Crc2 else if i == 2 then Crc3 else Crc4
  }

  lemma FirstCrcByte(cfg: Config, own: bv8, s: State, c: seq<bv8>)
    requires cfg.crc.Some? && |c| > 0 && |s.check| <= 2
    ensures Quiet(cfg, own, Go(s, Crc1), [c[0]], Go(s.(crcRx := c[..1], check := s.check + c[..1]), Crc2))
  {
    hide CheckCrc, Quiet, Reset,
         StepStart, StepHeader, StepSeg, StepBody, StepMac, StepStop;
    assert [] + [c[0]] == c[..1] == [c[0]];
    QuietStep(cfg, own, Go(s, Crc1), c[0]);
  }

  lemma MiddleCrcByte(cfg: Config, own: bv8, s: State, c: seq<bv8>, i: nat)
    requires cfg.crc == Some(Crc.Kind32) && |c| == 4 && |s.check| <= 2 && 1 <= i <= 2
    ensures Quiet(cfg, own, Go(s.(crcRx := c[..i], check := s.check + c[..i]), CrcPhase(i)), [c[i]],
                  Go(s.(crcRx := c[..i + 1], check := s.check + c[..i + 1]), CrcPhase(i + 1)))
  {
    hide CheckCrc, Quiet, Reset,
         StepStart, StepHeader, StepSeg, StepBody, StepMac, StepStop;
    assert c[..i] + [c[i]] == c[..i + 1] && s.check + c[..i] + [c[i]] == s.check + c[..i + 1];
    var t := Go(s.(crcRx := c[..i], check := s.check + c[..i]), CrcPhase(i));
    if i == 1 {
      QuietStep(cfg, own, t, c[i]);
    } else {
      QuietStep(cfg, own, t, c[i]);
    }
  }

  lemma LastCrcByte(cfg: Config, own: bv8, s: State, c: seq<bv8>)
    requires cfg.crc.Some? && |c| == Crc.Size(cfg.crc.value) && |s.check| <= 2
    ensures var i := |c| - 1;
            var (t, r) := CheckCrc(cfg, WithCrc(cfg, s, c));
            Ends(cfg, own, Go(s.(crcRx := c[..i], check := s.check + c[..i]), CrcPhase(i)), [c[i]], t, r)
  {
    hide CheckCrc, Ends, Reset,
         StepStart, StepHeader, StepSeg, StepBody, StepMac, StepStop;
    var i := |c| - 1;
    assert c[..i] + [c[i]] == c && s.check + c[..i] + [c[i]] == s.check + c;
    var (t, r) := CheckCrc(cfg, WithCrc(cfg, s, c));
    EndsStep(cfg, own, Go(s.(crcRx := c[..i], check := s.check + c[..i]), CrcPhase(i)), c[i], t, r);
  }

  // ---- Tag ----

  lemma MacBytes(cfg: Config, own: bv8, s: State, m: seq<bv8>)
    requires cfg.hmac && |m| == 4
    ensures var (t, r) := CheckTag(cfg, Go(s.(macRx := m), Mac4));
            Ends(cfg, own, Go(s, Mac1), m, t, r)
  {
    hide CheckTag, Quiet, Ends;
    var s0, s1 := Go(s, Mac1), Go(s.(macRx := m[..1]), Mac2);
    var s2, s3 := Go(s.(macRx := m[..2]), Mac3), Go(s.(macRx := m[..3]), Mac4);
    var (t, r) := CheckTag(cfg, Go(s.(macRx := m), Mac4));
    Mac1Byte(cfg, own, s, m[0]);
    Mac2Byte(cfg, own, s.(macRx := m[..1]), m[1]);
    Mac3Byte(cfg, own, s.(macRx := m[..2]), m[2]);
    assert m[..1] == [m[0]] && m[..1] + [m[1]] == m[..2] && m[..2] + [m[2]] == m[..3];
    LastMacByte(cfg, own, s, m);
    QuietAppend(cfg, own, s0, [m[0]], s1, [m[1]], s2);
    QuietAppend(cfg, own, s0, [m[0]] + [m[1]], s2, [m[2]], s3);
    EndsAppend(cfg, own, s0, [m[0]] + [m[1]] + [m[2]], s3, [m[3]], t, r);
    assert [m[0]] + [m[1]] + [m[2]] + [m[3]] == m;
  }

  lemma Mac1Byte(cfg: Config, own: bv8, s: State, b: bv8)
    requires cfg.hmac
    ensures Quiet(cfg, own, Go(s, Mac1), [b], Go(s.(macRx := [b]), Mac2))
  {
    hide CheckTag, Reset, Quiet, StepStart, StepHeader, StepSeg, StepBody, StepCrc, StepStop;
    QuietStep(cfg, own, Go(s, Mac1), b);
  }

  lemma Mac2Byte(cfg: Config, own: bv8, s: State, b: bv8)
    requires cfg.hmac
    ensures Quiet(cfg, own, Go(s, Mac2), [b], Go(s.(macRx := s.macRx + [b]), Mac3))
  {
    hide CheckTag, Reset, Quiet, StepStart, StepHeader, StepSeg, StepBody, StepCrc, StepStop;
    QuietStep(cfg, own, Go(s, Mac2), b);
  }

  lemma Mac3Byte(cfg: Config, own: bv8, s: State, b: bv8)
    requires cfg.hmac
    ensures Quiet(cfg, own, Go(s, Mac3), [b], Go(s.(macRx := s.macRx + [b]), Mac4))
  {
    hide CheckTag, Reset, Quiet, StepStart, StepHeader, StepSeg, StepBody, StepCrc, StepStop;
    QuietStep(cfg, own, Go(s, Mac3), b);
  }

  lemma LastMacByte(cfg: Config, own: bv8, s: State, m: seq<bv8>)
    requires cfg.hmac && |m| == 4
    ensures var (t, r) := CheckTag(cfg, Go(s.(macRx := m), Mac4));
            Ends(cfg, own, Go(s.(macRx := m[..3]), Mac4), [m[3]], t, r)
  {
    hide CheckTag, Ends, Reset,
         StepStart, StepHeader, StepSeg, StepBody, StepCrc, StepStop;
    assert m[..3] + [m[3]] == m;
    var (t, r) := CheckTag(cfg, Go(s.(macRx := m), Mac4));
    EndsStep(cfg, own, Go(s.(macRx := m[..3]), Mac4), m[3], t, r);
  }

  // ---- Stop ----

  lemma StopBytes(cfg: Config, own: bv8, s: State)
    ensures Ends(cfg, own, Go(s, Stop1), [STOP1, STOP2], Go(s, Start1), Valid)
  {
    hide Quiet, Ends, Reset,
         StepStart, StepHeader, StepSeg, StepBody, StepCrc, StepMac;
    QuietStep(cfg, own, Go(s, Stop1), STOP1);
    EndsStep(cfg, own, Go(s, Stop2), STOP2, Go(s, Start1), Valid);
    EndsAppend(cfg, own, Go(s, Stop1), [STOP1], Go(s, Stop2), [STOP2], Go(s, Start1), Valid);
    assert [STOP1] + [STOP2] == [STOP1, STOP2];
  }
}
