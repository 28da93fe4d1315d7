// The shipped configuration, byte by byte: what one altered byte does to a frame.
module Shipped {
  import opened Bytes
  import opened Frame
  import opened Decoder
  import opened Codec
  import opened FrameFate
  import opened Link
  import opened Hearing
  import opened Framing
  import opened Stream

  function WithLow(w: bv16, low: bv8): bv16 {
    (w & 0xFF00) | (low as bv16)
  }

  lemma WithLowHalves(w: bv16, low: bv8)
    ensures Low16(WithLow(w, low)) == low && High16(WithLow(w, low)) == High16(w)
  {
  }

  function WithTop(w: bv16, high: bv8): bv16 {
    (w & 0x00FF) | ((high as bv16) << 8)
  }

  lemma WithTopHalves(w: bv16, high: bv8)
    ensures Low16(WithTop(w, high)) == Low16(w) && High16(WithTop(w, high)) == high
  {
  }

  // The fields the receiver believes in when byte k of the frame arrives as v.
  function Misread(f: Fields, k: nat, v: bv8): Fields {
    if k == 3 then f.(id := WithLow(f.id, v)) else if k == 4 then f.(id := WithTop(f.id, v)) else
    if k == 5 then f.(seqByte := v) else f
  }

  lemma ShippedHeader(f: Fields, n: nat)
    requires n < 0x1_0000
    ensures Header(SHIPPED, f, n) == [Frame.TypeMethod(SHIPPED), Low16(f.id), High16(f.id), f.seqByte, LowByte(n)]
  {
    hide Frame.TypeMethod, Low16, High16, LowByte;
  }

  lemma ShippedSizes(f: Fields, p: seq<bv8>)
    requires |p| <= 255
    ensures PayloadAt(SHIPPED, f, p) == 7 && CheckAt(SHIPPED, f, p) == 7 + |p| && CrcAt(SHIPPED, f, p) == 9 + |p|
    ensures TagAt(SHIPPED, f, p) == StopAt(SHIPPED, f, p) == 11 + |p| && |Wire(SHIPPED, f, p)| == 13 + |p|
    ensures |EccOf(SHIPPED, p)| == 2 && |CrcOfFrame(SHIPPED, f, p)| == 2 && TagOf(SHIPPED, f, p) == []
  {
    hide Wire, EccOf, CrcField;
    ShippedHeader(f, |p|);
    PartSizes(SHIPPED, f, p);
    WireParts(SHIPPED, f, p);
  }

  lemma MisreadHeader(f: Fields, n: nat, k: nat, v: bv8)
    requires n < 0x1_0000 && 3 <= k <= 5
    ensures k - 2 < |Header(SHIPPED, f, n)|
    ensures Header(SHIPPED, Misread(f, k, v), n) == Header(SHIPPED, f, n)[k - 2 := v]
  {
    hide *;
    ShippedHeader(f, n);
    ShippedHeader(Misread(f, k, v), n);
    MisreadParts(f, k, v);
  }

  lemma MisreadParts(f: Fields, k: nat, v: bv8)
    requires 3 <= k <= 5
    ensures var g := Misread(f, k, v);
            && Low16(g.id) == (if k == 3 then v else Low16(f.id))
            && High16(g.id) == (if k == 4 then v else High16(f.id))
            && g.seqByte == (if k == 5 then v else f.seqByte)
  {
    WithLowHalves(f.id, v);
    WithTopHalves(f.id, v);
    hide Low16, High16, WithLow, WithTop;
  }

  // One altered byte anywhere but in LEN. An altered payload byte is repaired, an altered ID, SEQ,
  // ECC or CRC byte refuses the frame, an altered stop byte ends it: from ID on, nothing is ever
  // heard but what was sent. If START1, START2 or the flags are altered so that the frame is not
  // recognised, what is heard is what the bytes after the alteration say by themselves.
  lemma OneByteAltered(own: bv8, s: State, f: Fields, p: seq<bv8>, k: nat, v: bv8)
    requires s.phase == Start1 && |p| <= 255 && k < |Wire(SHIPPED, f, p)| && v != Wire(SHIPPED, f, p)[k]
    ensures var w, n := Wire(SHIPPED, f, p)[k := v], |p|;
            var t := if k == 0 then s else Reset(SHIPPED, s);
            && |w| == 13 + n
            && (k == 0 && IsStart1(v) ==> Delivers(SHIPPED, own, s, w, Meant(SHIPPED, f, p), false))
            && (k <= 2 && !(k == 0 && IsStart1(v)) ==>
                  && Run(SHIPPED, own, s, w[..k + 1]) == (t, Progress(k) + [if k == 2 then ErrTypeMethod else WaitData])
                  && Heard(SHIPPED, own, s, w) == Heard(SHIPPED, own, t, w[k + 1..])
                  && (Noise(w[k + 1..]) ==> Heard(SHIPPED, own, s, w) == []))
            && (3 <= k <= 5 || 7 + n <= k < 11 + n ==> Refuses(SHIPPED, own, s, w, 11 + n, Misread(f, k, v)))
            && (7 <= k < 7 + n ==> Delivers(SHIPPED, own, s, w, Meant(SHIPPED, f, p), true))
            && (11 + n <= k ==> Drops(SHIPPED, own, s, w, k + 1, Reset(SHIPPED, s), ErrStop))
            && (3 <= k && k != 6 ==> Heard(SHIPPED, own, s, w) == if 7 <= k < 7 + n then [Meant(SHIPPED, f, p)] else [])
  {
    hide Ends, Delivers, Refuses, Drops, Run, Heard, Wire, Header, EccOf, CrcOfFrame, TagOf, Meant, Reset, Misread, IsStart1,
      Noise, Progress;
    ShippedSizes(f, p);
    if k <= 2 {
      HurtHead(own, s, f, p, k, v);
    } else if 3 <= k <= 5 {
      HurtHeader(own, s, f, p, k, v);
    } else if 7 <= k < 7 + |p| {
      HurtPayload(own, s, f, p, k, v);
    } else if 7 + |p| <= k < 11 + |p| {
      HurtCheck(own, s, f, p, k, v);
    } else if 11 + |p| <= k {
      HurtStop(own, s, f, p, k, v);
    }
  }

  lemma MisreadNothing(f: Fields, k: nat, v: bv8)
    requires k > 5
    ensures Misread(f, k, v) == f
  {
  }

  lemma HurtHead(own: bv8, s: State, f: Fields, p: seq<bv8>, k: nat, v: bv8)
    requires s.phase == Start1 && |p| <= 255 && k <= 2 && k < |Wire(SHIPPED, f, p)| && v != Wire(SHIPPED, f, p)[k]
    ensures var w := Wire(SHIPPED, f, p)[k := v];
            var t := if k == 0 then s else Reset(SHIPPED, s);
            if k == 0 && IsStart1(v) then Delivers(SHIPPED, own, s, w, Meant(SHIPPED, f, p), false)
            else
              && Run(SHIPPED, own, s, w[..k + 1]) == (t, Progress(k) + [if k == 2 then ErrTypeMethod else WaitData])
              && Heard(SHIPPED, own, s, w) == Heard(SHIPPED, own, t, w[k + 1..])
              && (Noise(w[k + 1..]) ==> Heard(SHIPPED, own, s, w) == [])
  {
    hide Delivers, Run, Heard, Wire, Meant, Reset, IsStart1, Noise;
    if k == 0 && IsStart1(v) {
      StartNibble(v);
      StartAltered(SHIPPED, own, s, f, p, v);
    } else {
      HeadAltered(SHIPPED, own, s, f, p, k, v);
    }
  }

  // A frame that is dropped is not heard either, if the bytes after it cannot start another one.
  lemma DroppedUnheard(own: bv8, s: State, bytes: seq<bv8>, n: nat, t: State, r: Ret)
    requires Drops(SHIPPED, own, s, bytes, n, t, r) && r != Valid && t.phase == Start1 && Noise(bytes[n..])
    ensures Heard(SHIPPED, own, s, bytes) == []
  {
    hide Run, Ends, Heard, Noise;
    EndsUnheard(SHIPPED, own, s, bytes[..n], t, r);
    assert bytes == bytes[..n] + bytes[n..];
    HeardAppend(SHIPPED, own, s, bytes[..n], bytes[n..]);
    NoiseUnheard(SHIPPED, own, t, bytes[n..]);
  }

  lemma RefusedUnheard(own: bv8, s: State, f: Fields, p: seq<bv8>, k: nat, v: bv8, f': Fields)
    requires |p| <= 255 && k < 11 + |p| <= |Wire(SHIPPED, f, p)|
    requires Refuses(SHIPPED, own, s, Wire(SHIPPED, f, p)[k := v], 11 + |p|, f')
    ensures Heard(SHIPPED, own, s, Wire(SHIPPED, f, p)[k := v]) == []
  {
    hide Heard, Wire, Drops, Noise, Rejected, TagAt, StopAt, CrcAt, CheckAt, PayloadAt, TagOf, EccOf, CrcOfFrame;
    ShippedSizes(f, p);
    NoTag();
    Leftover(SHIPPED, f, p, k, v);
    RejectedStarts(s, f');
    DroppedUnheard(own, s, Wire(SHIPPED, f, p)[k := v], 11 + |p|, Rejected(SHIPPED, s, f'), ErrCrc);
  }

  lemma RejectedStarts(s: State, f: Fields)
    ensures Rejected(SHIPPED, s, f).phase == Start1
  {
  }

  lemma NoTag()
    ensures Noise([])
  {
  }

  lemma HurtPayload(own: bv8, s: State, f: Fields, p: seq<bv8>, k: nat, v: bv8)
    requires s.phase == Start1 && 7 <= k < 7 + |p| <= 262 && k < |Wire(SHIPPED, f, p)| && v != Wire(SHIPPED, f, p)[k]
    ensures var w := Wire(SHIPPED, f, p)[k := v];
            Delivers(SHIPPED, own, s, w, Meant(SHIPPED, f, p), true) && Heard(SHIPPED, own, s, w) == [Meant(SHIPPED, f, p)]
  {
    hide Run, Heard, Delivers, Wire, Header, EccOf, CrcOfFrame, TagOf, Meant;
    ShippedSizes(f, p);
    WirePrefix(SHIPPED, f, p);
    assert Wire(SHIPPED, f, p)[7..7 + |p|][k - 7] == p[k - 7];
    PayloadByteAltered(SHIPPED, own, s, f, p, k - 7, v);
    HeardWhole(SHIPPED, own, s, Wire(SHIPPED, f, p)[k := v], Meant(SHIPPED, f, p), true);
  }

  lemma HurtCheck(own: bv8, s: State, f: Fields, p: seq<bv8>, k: nat, v: bv8)
    requires s.phase == Start1 && |p| <= 255 && 7 + |p| <= k < 11 + |p|
    requires k < |Wire(SHIPPED, f, p)| && v != Wire(SHIPPED, f, p)[k]
    ensures var w := Wire(SHIPPED, f, p)[k := v];
            Refuses(SHIPPED, own, s, w, 11 + |p|, Misread(f, k, v)) && Heard(SHIPPED, own, s, w) == []
  {
    hide Run, Heard, Refuses, Wire, Header, EccOf, CrcOfFrame, TagOf, Misread;
    var n := |p|;
    ShippedSizes(f, p);
    WirePrefix(SHIPPED, f, p);
    MisreadNothing(f, k, v);
    if k < 9 + n {
      assert Wire(SHIPPED, f, p)[7 + n..9 + n][k - 7 - n] == EccOf(SHIPPED, p)[k - 7 - n];
      EccByteAltered(SHIPPED, own, s, f, p, k - 7 - n, v);
    } else {
      assert Wire(SHIPPED, f, p)[9 + n..11 + n][k - 9 - n] == CrcOfFrame(SHIPPED, f, p)[k - 9 - n];
      CrcByteAltered(SHIPPED, own, s, f, p, k - 9 - n, v);
    }
    RefusedUnheard(own, s, f, p, k, v, f);
  }

  lemma HurtHeader(own: bv8, s: State, f: Fields, p: seq<bv8>, k: nat, v: bv8)
    requires s.phase == Start1 && |p| <= 255 && 3 <= k <= 5
    requires k < |Wire(SHIPPED, f, p)| && v != Wire(SHIPPED, f, p)[k]
    ensures var w := Wire(SHIPPED, f, p)[k := v];
            Refuses(SHIPPED, own, s, w, 11 + |p|, Misread(f, k, v)) && Heard(SHIPPED, own, s, w) == []
  {
    hide Run, Heard, Refuses, Wire, Header, EccOf, CrcOfFrame, TagOf, Misread, Frame.TypeMethod;
    ShippedSizes(f, p);
    WirePrefix(SHIPPED, f, p);
    ShippedHeader(f, |p|);
    assert Wire(SHIPPED, f, p)[2..7][k - 2] == Header(SHIPPED, f, |p|)[k - 2];
    MisreadHeader(f, |p|, k, v);
    HeaderByteAltered(SHIPPED, own, s, f, Misread(f, k, v), p, k - 2, v);
    RefusedUnheard(own, s, f, p, k, v, Misread(f, k, v));
  }

  lemma HurtStop(own: bv8, s: State, f: Fields, p: seq<bv8>, k: nat, v: bv8)
    requires s.phase == Start1 && |p| <= 255 && 11 + |p| <= k
    requires k < |Wire(SHIPPED, f, p)| && v != Wire(SHIPPED, f, p)[k]
    ensures var w := Wire(SHIPPED, f, p)[k := v];
            Drops(SHIPPED, own, s, w, k + 1, Reset(SHIPPED, s), ErrStop) && Heard(SHIPPED, own, s, w) == []
  {
    hide Run, Ends, Heard, Drops, Wire, Header, EccOf, CrcOfFrame, TagOf, Reset, Noise;
    var i := k - 11 - |p|;
    ShippedSizes(f, p);
    WireParts(SHIPPED, f, p);
    var w := Wire(SHIPPED, f, p);
    assert w[11 + |p|..] == [STOP1, STOP2];
    assert w[11 + |p|..][i] == w[k];
    StopByteAltered(SHIPPED, own, s, f, p, i, v);
    StopsLeft(SHIPPED, f, p, k, v, k + 1);
    ResetStarts(SHIPPED, s);
    DroppedUnheard(own, s, w[k := v], k + 1, Reset(SHIPPED, s), ErrStop);
  }

  // ---- A wrong flags byte is not harmless ----

  lemma NoStart(n: nat)
    requires n < 192
    ensures !IsStart1(LowByte(n))
  {
    hide FromBits, Has, IsStart1, ToNat;
    BitsOf(n % 2 == 1, n / 2 % 2 == 1, n / 4 % 2 == 1, n / 8 % 2 == 1,
           n / 16 % 2 == 1, n / 32 % 2 == 1, n / 64 % 2 == 1, n / 128 % 2 == 1);
    StartBits(LowByte(n));
  }

  lemma StartBits(b: bv8)
    ensures IsStart1(b) ==> Has(b, 0x40) && Has(b, 0x80)
  {
  }

  // Any frame g with up to 178 bytes q of payload can be the payload of another frame f, and is
  // delivered if the flags byte of f is altered, whatever it is altered to.
  lemma EmbeddedInShipped(own: bv8, s: State, f: Fields, g: Fields, q: seq<bv8>, v: bv8)
    requires s.phase == Start1 && v != 0xA2 && |q| <= 178
    requires !IsStart1(Low16(f.id)) && !IsStart1(High16(f.id)) && !IsStart1(f.seqByte)
    ensures |Wire(SHIPPED, g, q)| <= 255 && |Wire(SHIPPED, f, Wire(SHIPPED, g, q))| > 2
    ensures Meant(SHIPPED, g, q) in Heard(SHIPPED, own, s, Wire(SHIPPED, f, Wire(SHIPPED, g, q))[2 := v])
  {
    hide Heard, Wire, Header, Meant, IsStart1, Low16, High16, LowByte, Frame.TypeMethod, Noise,
      TagAt, StopAt, CrcAt, CheckAt, PayloadAt, TagOf, EccOf, CrcOfFrame;
    var n := 13 + |q|;
    ShippedSizes(g, q);
    ShippedHeader(f, n);
    ShippedFlags();
    NoStart(n);
    FourQuiet(Low16(f.id), High16(f.id), f.seqByte, LowByte(n));
    assert Header(SHIPPED, f, n)[1..] == [Low16(f.id), High16(f.id), f.seqByte, LowByte(n)];
    EmbeddedFrame(SHIPPED, own, s, f, g, q, v);
  }

  lemma FourQuiet(a: bv8, b: bv8, c: bv8, d: bv8)
    requires !IsStart1(a) && !IsStart1(b) && !IsStart1(c) && !IsStart1(d)
    ensures Noise([a, b, c, d])
  {
  }

  lemma ShippedFlags()
    ensures Frame.TypeMethod(SHIPPED) == 0xA2
  {
  }
}
