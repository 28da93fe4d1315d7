// Published check values of the codes, and one shipped frame written out in full.
module CheckValues {
  import opened Frame
  import Crc16
  import Crc32
  import Ecc
  import Layout
  import Lfsr
  import SipHash

  // The ASCII digits 1 to 9, the customary check message.
  const DIGITS: seq<bv8> := [0x31, 0x32, 0x33, 0x34, 0x35, 0x36, 0x37, 0x38, 0x39]

  // ---- CRC-16/XMODEM ----

  // The register takes the values rs over the bytes of s; the table gives each step.
  ghost predicate Trace16(s: seq<bv8>, rs: seq<bv16>) {
    |rs| == |s| + 1 && rs[0] == 0 && forall k :: 0 <= k < |s| ==> Crc16.TableStep(rs[k], s[k]) == rs[k + 1]
  }

  lemma {:induction false} TraceEnds16(s: seq<bv8>, rs: seq<bv16>)
    requires Trace16(s, rs)
    ensures Layout.Reg16(s) == rs[|s|]
    decreases |s|
  {
    hide Crc16.Step, Crc16.TableStep, Crc16.Bits;
    if |s| > 0 {
      var n := |s| - 1;
      hide Layout.Reg16;
      TraceEnds16(s[..n], rs[..n + 1]);
      Layout.Reg16Snoc(s[..n], s[n]);
      Crc16.TableStepIsStep(rs[n], s[n]);
      assert s == s[..n] + [s[n]];
    }
  }

  lemma Steps16()
    ensures Crc16.TableStep(0x0000, 0x31) == 0x2672 && Crc16.TableStep(0x2672, 0x32) == 0x20B5
    ensures Crc16.TableStep(0x20B5, 0x33) == 0x9752 && Crc16.TableStep(0x9752, 0x34) == 0xD789
    ensures Crc16.TableStep(0xD789, 0x35) == 0x546C && Crc16.TableStep(0x546C, 0x36) == 0x20E4
    ensures Crc16.TableStep(0x20E4, 0x37) == 0x86D6 && Crc16.TableStep(0x86D6, 0x38) == 0x9015
    ensures Crc16.TableStep(0x9015, 0x39) == 0x31C3
  {
  }

  lemma Crc16Check()
    ensures Layout.Reg16(DIGITS) == 0x31C3
  {
    var rs: seq<bv16> := [0x0000, 0x2672, 0x20B5, 0x9752, 0xD789, 0x546C, 0x20E4, 0x86D6, 0x9015, 0x31C3];
    hide Crc16.TableStep, Layout.Reg16;
    Steps16();
    TraceEnds16(DIGITS, rs);
  }

  // ---- CRC-32, not reflected ----

  ghost predicate Trace32(s: seq<bv8>, rs: seq<bv32>) {
    && |rs| == |s| + 1 && rs[0] == 0xFFFF_FFFF
    && forall k :: 0 <= k < |s| ==> Crc32.TableStep(rs[k], s[k]) == rs[k + 1]
  }

  lemma {:induction false} TraceEnds32(s: seq<bv8>, rs: seq<bv32>)
    requires Trace32(s, rs)
    ensures Layout.Reg32(s) == rs[|s|]
    decreases |s|
  {
    hide Crc32.Step, Crc32.TableStep, Crc32.Bits;
    if |s| > 0 {
      var n := |s| - 1;
      hide Layout.Reg32;
      TraceEnds32(s[..n], rs[..n + 1]);
      Layout.Reg32Snoc(s[..n], s[n]);
      Crc32.TableStepIsStep(rs[n], s[n]);
      assert s == s[..n] + [s[n]];
    }
  }

  lemma FirstSteps32()
    ensures Crc32.TableStep(0xFFFF_FFFF, 0x31) == 0x9EFB_CF93 && Crc32.TableStep(0x9EFB_CF93, 0x32) == 0x3FEC_5E6A
    ensures Crc32.TableStep(0x3FEC_5E6A, 0x33) == 0xD952_F164 && Crc32.TableStep(0xD952_F164, 0x34) == 0xA695_C4AA
  {
  }

  lemma LastSteps32()
    ensures Crc32.TableStep(0xA695_C4AA, 0x35) == 0xBD9A_B747 && Crc32.TableStep(0xBD9A_B747, 0x36) == 0xD8F0_6C8F
    ensures Crc32.TableStep(0xD8F0_6C8F, 0x37) == 0x0D8A_14C4 && Crc32.TableStep(0x0D8A_14C4, 0x38) == 0x49E3_C2FB
    ensures Crc32.TableStep(0x49E3_C2FB, 0x39) == 0x0376_E6E7
  {
  }

  lemma Crc32Check()
    ensures Layout.Reg32(DIGITS) ^ 0xFFFF_FFFF == 0xFC89_1918
  {
    var rs: seq<bv32> := [0xFFFF_FFFF, 0x9EFB_CF93, 0x3FEC_5E6A, 0xD952_F164, 0xA695_C4AA, 0xBD9A_B747, 0xD8F0_6C8F,
                           0x0D8A_14C4, 0x49E3_C2FB, 0x0376_E6E7];
    hide Crc32.TableStep, Layout.Reg32;
    FirstSteps32();
    LastSteps32();
    TraceEnds32(DIGITS, rs);
  }

  // ---- SipHash-2-4 ----

  // The test vector of the SipHash paper, appendix A: key 00..0F, message 00..0E, so one whole
  // block and a last block of seven bytes with the length above them.
  const SIP_KEY: seq<bv8> := [0x00, 0x01, 0x02, 0x03, 0x04, 0x05, 0x06, 0x07, 0x08, 0x09, 0x0A, 0x0B, 0x0C, 0x0D, 0x0E, 0x0F]
  const SIP_FIRST: seq<bv8> := [0x00, 0x01, 0x02, 0x03, 0x04, 0x05, 0x06, 0x07]
  const SIP_LAST: seq<bv8> := [0x08, 0x09, 0x0A, 0x0B, 0x0C, 0x0D, 0x0E]

  function Up(w: bv64, b: bv8, i: nat): bv64
    requires i < 8
  {
    SipHash.Or(w, SipHash.Place(b, i))
  }

  lemma FourBytes(a: bv8, b: bv8, c: bv8, d: bv8)
    ensures SipHash.Word([a, b, c, d]) == Up(Up(Up(Up(0, a, 0), b, 1), c, 2), d, 3)
  {
    hide SipHash.Or, SipHash.Place;
    assert SipHash.Word([]) == 0 && [] + [a] == [a];
    hide SipHash.Word;
    SipHash.WordSnoc([], a);
    SipHash.WordSnoc([a], b);
    assert [a] + [b] == [a, b];
    SipHash.WordSnoc([a, b], c);
    assert [a, b] + [c] == [a, b, c];
    SipHash.WordSnoc([a, b, c], d);
    assert [a, b, c] + [d] == [a, b, c, d];
  }

  lemma SevenBytes(a: bv8, b: bv8, c: bv8, d: bv8, e: bv8, f: bv8, g: bv8)
    ensures SipHash.Word([a, b, c, d, e, f, g]) ==
            Up(Up(Up(Up(Up(Up(Up(0, a, 0), b, 1), c, 2), d, 3), e, 4), f, 5), g, 6)
  {
    hide SipHash.Or, SipHash.Place, SipHash.Word;
    FourBytes(a, b, c, d);
    SipHash.WordSnoc([a, b, c, d], e);
    assert [a, b, c, d] + [e] == [a, b, c, d, e];
    SipHash.WordSnoc([a, b, c, d, e], f);
    assert [a, b, c, d, e] + [f] == [a, b, c, d, e, f];
    SipHash.WordSnoc([a, b, c, d, e, f], g);
    assert [a, b, c, d, e, f] + [g] == [a, b, c, d, e, f, g];
  }

  lemma EightBytes(s: seq<bv8>)
    requires |s| == 8
    ensures SipHash.Word(s) == Up(SipHash.Word([s[0], s[1], s[2], s[3], s[4], s[5], s[6]]), s[7], 7)
  {
    hide SipHash.Word, SipHash.Or, SipHash.Place;
    SipHash.WordSnoc(s[..7], s[7]);
    assert s[..7] + [s[7]] == s && s[..7] == [s[0], s[1], s[2], s[3], s[4], s[5], s[6]];
  }

  lemma SipWords()
    ensures SipHash.Word(SIP_KEY[..8]) == 0x07060504_03020100 && SipHash.Word(SIP_KEY[8..]) == 0x0F0E0D0C_0B0A0908
    ensures SipHash.Word(SIP_FIRST) == 0x07060504_03020100
    ensures SipHash.WithLength(SipHash.Word(SIP_LAST), 15) == 0x0F0E0D0C_0B0A0908
  {
    SevenBytes(0x00, 0x01, 0x02, 0x03, 0x04, 0x05, 0x06);
    SevenBytes(0x08, 0x09, 0x0A, 0x0B, 0x0C, 0x0D, 0x0E);
    EightBytes(SIP_FIRST);
    assert SIP_KEY[..8] == SIP_FIRST;
    EightBytes(SIP_KEY[8..]);
    hide SipHash.Word;
  }

  lemma CompressRounds()
    ensures SipHash.Round(SipHash.V(0x74696861_73716475, 0x6B617F6D_656E6665, 0x6B7F6261_6D677361, 0x7C6D6C6A_717C6D7B)) ==
            SipHash.V(0x64668A92_9363847F, 0x4ED23208_3D9AA8DC, 0xF2F74892_D8141A2E, 0x9290F981_0552F4A8)
    ensures SipHash.Round(SipHash.V(0x64668A92_9363847F, 0x4ED23208_3D9AA8DC, 0xF2F74892_D8141A2E, 0x9290F981_0552F4A8)) ==
            SipHash.V(0x4D07749C_DD0858E0, 0x0D52F6F6_2A4F59A4, 0x634CB357_7B01FD3D, 0xA5224D6F_55C7D9C8)
    ensures SipHash.Round(SipHash.V(0x4A017198_DE0A59E0, 0x0D52F6F6_2A4F59A4, 0x634CB357_7B01FD3D, 0xAA2C4063_5ECDD0C0)) ==
            SipHash.V(0x557560FB_6063D060, 0x4C8E675B_D961133E, 0xBD3D002B_1703A181, 0xFB944117_9A4A7315)
    ensures SipHash.Round(SipHash.V(0x557560FB_6063D060, 0x4C8E675B_D961133E, 0xBD3D002B_1703A181, 0xFB944117_9A4A7315)) ==
            SipHash.V(0x338BBEA7_645FB759, 0x414FC3FB_98EFE374, 0xCCF13EA5_27B9F4BD, 0x5293F5DA_84008F82)
  {
  }

  lemma FinalRounds()
    ensures SipHash.Round(SipHash.V(0x3C85B3AB_6F55BE51, 0x414FC3FB_98EFE374, 0xCCF13EA5_27B9F442, 0x5293F5DA_84008F82)) ==
            SipHash.V(0xF2A55244_A20E48FE, 0xAC5AD16C_CC3CA6E4, 0x9FE5ADB0_A52F393A, 0xFD41D55E_88F30308)
    ensures SipHash.Round(SipHash.V(0xF2A55244_A20E48FE, 0xAC5AD16C_CC3CA6E4, 0x9FE5ADB0_A52F393A, 0xFD41D55E_88F30308)) ==
            SipHash.V(0xB6C3FBDE_CC2AE4B4, 0x1638C86A_DC6B3CF0, 0x28B8B6AB_62553D46, 0xC9465E86_EC43EB95)
    ensures SipHash.Round(SipHash.V(0xB6C3FBDE_CC2AE4B4, 0x1638C86A_DC6B3CF0, 0x28B8B6AB_62553D46, 0xC9465E86_EC43EB95)) ==
            SipHash.V(0x58101B16_7209A5E6, 0xF8792AE7_5B66E7DD, 0x1DA14C3E_C7F0B4F7, 0x7624BA8A_41BC4AD9)
    ensures SipHash.Round(SipHash.V(0x58101B16_7209A5E6, 0xF8792AE7_5B66E7DD, 0x1DA14C3E_C7F0B4F7, 0x7624BA8A_41BC4AD9)) ==
            SipHash.V(0xF6BCD538_93FECFF1, 0x54B9964C_7EA0D937, 0x1B38329C_099BB55A, 0x1814BB89_AD7BE679)
  {
  }

  lemma SipHashVector()
    ensures var start := SipHash.Keyed(SipHash.Word(SIP_KEY[..8]), SipHash.Word(SIP_KEY[8..]));
            var first, last := SipHash.Word(SIP_FIRST), SipHash.WithLength(SipHash.Word(SIP_LAST), 15);
            SipHash.Finish(SipHash.Compress(SipHash.Compress(start, first), last)) == 0xA129CA61_49BE45E5
  {
    CompressRounds();
    FinalRounds();
    SipWords();
    hide SipHash.Round;
  }

  // ---- The check bytes of the error-correcting code ----

  ghost predicate TraceParity(s: seq<bv8>, ps: seq<bv8>) {
    |ps| == |s| + 1 && ps[0] == 0 && forall k :: 0 <= k < |s| ==> Lfsr.Xor(ps[k], s[k]) == ps[k + 1]
  }

  function Fold(l: bv8, b: bv8): bv8 {
    Lfsr.Lf(Lfsr.Xor(l, b))
  }

  ghost predicate TraceLocator(s: seq<bv8>, ls: seq<bv8>) {
    |ls| == |s| + 1 && ls[0] == 0 && forall k :: 0 <= k < |s| ==> Fold(ls[k], s[k]) == ls[k + 1]
  }

  lemma {:induction false} TraceEndsParity(s: seq<bv8>, ps: seq<bv8>)
    requires TraceParity(s, ps)
    ensures Ecc.Parity(s) == ps[|s|]
    decreases |s|
  {
    hide Lfsr.Xor;
    if |s| > 0 {
      var n := |s| - 1;
      TraceEndsParity(s[..n], ps[..n + 1]);
    }
  }

  lemma {:induction false} TraceEndsLocator(s: seq<bv8>, ls: seq<bv8>)
    requires TraceLocator(s, ls)
    ensures Ecc.Locator(s) == ls[|s|]
    decreases |s|
  {
    hide Lfsr.Lf, Lfsr.Xor;
    if |s| > 0 {
      var n := |s| - 1;
      TraceEndsLocator(s[..n], ls[..n + 1]);
    }
  }

  lemma ParitySteps()
    ensures Lfsr.Xor(0x00, 0x31) == 0x31 && Lfsr.Xor(0x31, 0x32) == 0x03 && Lfsr.Xor(0x03, 0x33) == 0x30
    ensures Lfsr.Xor(0x30, 0x34) == 0x04 && Lfsr.Xor(0x04, 0x35) == 0x31 && Lfsr.Xor(0x31, 0x36) == 0x07
    ensures Lfsr.Xor(0x07, 0x37) == 0x30 && Lfsr.Xor(0x30, 0x38) == 0x08 && Lfsr.Xor(0x08, 0x39) == 0x31
  {
  }

  lemma LocatorSteps()
    ensures Fold(0x00, 0x31) == 0x96 && Fold(0x96, 0x32) == 0x52 && Fold(0x52, 0x33) == 0xBE
    ensures Fold(0xBE, 0x34) == 0x45 && Fold(0x45, 0x35) == 0x38 && Fold(0x38, 0x36) == 0x07
    ensures Fold(0x07, 0x37) == 0x18 && Fold(0x18, 0x38) == 0x10 && Fold(0x10, 0x39) == 0x9A
  {
  }

  lemma ParityCheck()
    ensures Ecc.Parity(DIGITS) == 0x31
  {
    hide Lfsr.Xor, Ecc.Parity;
    var ps: seq<bv8> := [0x00, 0x31, 0x03, 0x30, 0x04, 0x31, 0x07, 0x30, 0x08, 0x31];
    ParitySteps();
    TraceEndsParity(DIGITS, ps);
  }

  lemma LocatorCheck()
    ensures Ecc.Locator(DIGITS) == 0x9A
  {
    hide Fold, Ecc.Locator;
    var ls: seq<bv8> := [0x00, 0x96, 0x52, 0xBE, 0x45, 0x38, 0x07, 0x18, 0x10, 0x9A];
    LocatorSteps();
    TraceEndsLocator(DIGITS, ls);
  }

  lemma EccCheck()
    ensures Ecc.Parity(DIGITS) == 0x31 && Ecc.Locator(DIGITS) == 0x9A
  {
    ParityCheck();
    LocatorCheck();
  }

  // ---- A shipped frame ----

  // Everything the CRC of the frame below covers.
  const COVERED: seq<bv8> :=
    [0xA2, 0x02, 0x01, 0x05, 0x09, 0x31, 0x32, 0x33, 0x34, 0x35, 0x36, 0x37, 0x38, 0x39, 0x31, 0x9A]

  lemma FrameSteps()
    ensures Crc16.TableStep(0x0000, 0xA2) == 0x95A8 && Crc16.TableStep(0x95A8, 0x02) == 0x5B5E
    ensures Crc16.TableStep(0x5B5E, 0x01) == 0xA5BF && Crc16.TableStep(0xA5BF, 0x05) == 0x0AEA
    ensures Crc16.TableStep(0x0AEA, 0x09) == 0xDA63 && Crc16.TableStep(0xDA63, 0x31) == 0x2F45
  {
  }

  lemma MoreFrameSteps()
    ensures Crc16.TableStep(0x2F45, 0x32) == 0x869C && Crc16.TableStep(0x869C, 0x33) == 0x6B7E
    ensures Crc16.TableStep(0x6B7E, 0x34) == 0xD51A && Crc16.TableStep(0xD51A, 0x35) == 0xE72E
    ensures Crc16.TableStep(0xE72E, 0x36) == 0xF55C
  {
  }

  lemma LastFrameSteps()
    ensures Crc16.TableStep(0xF55C, 0x37) == 0xA50E && Crc16.TableStep(0xA50E, 0x38) == 0x5C14
    ensures Crc16.TableStep(0x5C14, 0x39) == 0x2803 && Crc16.TableStep(0x2803, 0x31) == 0x8018
    ensures Crc16.TableStep(0x8018, 0x9A) == 0xAB7B
  {
  }

  lemma CoveredCheck()
    ensures Layout.Reg16(COVERED) == 0xAB7B
  {
    var rs: seq<bv16> :=
      [0x0000, 0x95A8, 0x5B5E, 0xA5BF, 0x0AEA, 0xDA63, 0x2F45, 0x869C, 0x6B7E, 0xD51A, 0xE72E, 0xF55C,
       0xA50E, 0x5C14, 0x2803, 0x8018, 0xAB7B];
    hide Crc16.TableStep, Layout.Reg16;
    FrameSteps();
    MoreFrameSteps();
    LastFrameSteps();
    TraceEnds16(COVERED, rs);
  }

  // The frame that carries the nine digits under identifier 0x0102 and number 5.
  lemma ShippedFrame(f: Fields)
    requires f.id == 0x0102 && f.seqByte == 5
    ensures Wire(SHIPPED, f, DIGITS) == [0xC0, 0xDE] + COVERED + [0x7B, 0xAB, 0xDA, 0xED]
  {
    hide Wire, Layout.Reg16, Ecc.Parity, Ecc.Locator;
    var w := Wire(SHIPPED, f, DIGITS);
    Layout.ShippedLayout(f, DIGITS);
    EccCheck();
    IsId(w[3], w[4]);
    IsNine(w[6]);
    assert w[2..18] == w[..3][2..] + w[3..7] + w[7..16] + w[16..18];
    assert w[2..18] == COVERED;
    CoveredCheck();
    IsCrc(w[18], w[19]);
    assert w == w[..3] + w[3..7] + w[7..16] + w[16..20] + w[20..];
  }

  lemma IsId(low: bv8, high: bv8)
    ensures (low as bv16) | ((high as bv16) << 8) == 0x0102 ==> low == 0x02 && high == 0x01
  {
  }

  lemma IsCrc(low: bv8, high: bv8)
    ensures (low as bv16) | ((high as bv16) << 8) == 0xAB7B ==> low == 0x7B && high == 0xAB
  {
  }

  lemma IsNine(b: bv8)
    ensures b as int == 9 ==> b == 9
  {
  }
}
