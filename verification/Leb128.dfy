// The variable-length chunk numbers of the SEG header: seven bits to a byte, low bits
// first, top bit set on every byte but the last.
module Leb128 {

  // ---- Sender ----

  function Low7(v: bv32): bv8 {
    (v & 0x7F) as bv8
  }

  function More(b: bv8): bv8 {
    b | 0x80
  }

  function Rest(v: bv32): (r: bv32)
    ensures r != 0 ==> r < v
  {
    v >> 7
  }

  function Encode(v: bv32): seq<bv8>
    decreases v
  {
    if Rest(v) == 0 then [Low7(v)] else [More(Low7(v))] + Encode(Rest(v))
  }

  method Send(v: bv32) returns (s: seq<bv8>)
    ensures s == Encode(v)
  {
    hide Low7, More, Rest;
    s := [];
    var rest := v;
    var more := true;
    while more
      invariant more ==> s + Encode(rest) == Encode(v)
      invariant !more ==> s == Encode(v)
      decreases more, rest
    {
      var b := Low7(rest);
      rest := Rest(rest);
      if rest != 0 {
        b := More(b);
      }
      s := s + [b];
      more := rest != 0;
    }
  }

  // ---- Receiver ----

  // The value gathered so far and the position of the next seven bits. The position is a
  // byte in the decoder, so it wraps.
  datatype Acc = Acc(value: bv32, shift: bv8)

  const START := Acc(0, 0)

  function Absorb(a: Acc, b: bv8): Acc {
    Acc(if a.shift < 28 then a.value | (((b & 0x7F) as bv32) << a.shift) else a.value, a.shift + 7)
  }

  predicate Last(b: bv8) {
    b & 0x80 == 0
  }

  function AbsorbAll(a: Acc, s: seq<bv8>): Acc
    decreases |s|
  {
    if |s| == 0 then a else AbsorbAll(Absorb(a, s[0]), s[1..])
  }

  // The receiver finds the end of the number where the sender put it.
  lemma {:induction false} EncodeEnds(v: bv32)
    ensures 1 <= |Encode(v)|
    ensures Last(Encode(v)[|Encode(v)| - 1])
    ensures forall i :: 0 <= i < |Encode(v)| - 1 ==> !Last(Encode(v)[i])
    decreases v
  {
    hide Low7, More, Rest, Last;
    TopBits(v);
    if Rest(v) != 0 {
      EncodeEnds(Rest(v));
    }
  }

  lemma TopBits(v: bv32)
    ensures Last(Low7(v)) && !Last(More(Low7(v)))
  {
  }

  // The bytes sent for a number: seven bits each from the bottom, all but the last marked.
  lemma BytesSent(v: bv32)
    ensures v < 0x80 ==> Encode(v) == [v as bv8]
    ensures 0x80 <= v < 0x4000 ==> Encode(v) == [More(Low7(v)), (v >> 7) as bv8]
    ensures 0x4000 <= v < 0x20_0000 ==> Encode(v) == [More(Low7(v)), More(Low7(v >> 7)), (v >> 14) as bv8]
  {
    Groups(v);
    hide Low7, More, Rest;
    var r := Rest(v);
    assert Rest(r) == 0 ==> Encode(r) == [Low7(r)];
    assert Rest(Rest(r)) == 0 ==> Encode(Rest(r)) == [Low7(Rest(r))];
  }

  lemma Groups(v: bv32)
    ensures v < 0x80 ==> Rest(v) == 0 && Low7(v) == v as bv8
    ensures 0x80 <= v < 0x4000 ==> Rest(v) != 0 && Rest(Rest(v)) == 0 && Low7(Rest(v)) == (v >> 7) as bv8
    ensures 0x4000 <= v < 0x20_0000 ==>
              && Rest(v) == v >> 7 && Rest(v) != 0 && Rest(Rest(v)) != 0 && Rest(Rest(Rest(v))) == 0
              && Low7(Rest(Rest(v))) == (v >> 14) as bv8
  {
  }

  // The low 7k bits of v, and v without them, for k up to 4.
  function Known(v: bv32, k: nat): bv32 {
    if k == 0 then 0 else if k == 1 then v & 0x7F else if k == 2 then v & 0x3FFF else if k == 3 then v & 0x1F_FFFF
    else v & 0x0FFF_FFFF
  }

  function Unknown(v: bv32, k: nat): bv32 {
    if k == 0 then v else if k == 1 then v >> 7 else if k == 2 then v >> 14 else if k == 3 then v >> 21 else v >> 28
  }

  function Position(k: nat): bv8 {
    if k == 0 then 0 else if k == 1 then 7 else if k == 2 then 14 else if k == 3 then 21 else 28
  }

  lemma Absorb0(v: bv32)
    ensures Absorb(Acc(0, 0), Low7(v)) == Acc(v & 0x7F, 7)
    ensures Absorb(Acc(0, 0), More(Low7(v))) == Acc(v & 0x7F, 7)
  {
  }

  lemma Absorb1(v: bv32)
    ensures Absorb(Acc(v & 0x7F, 7), Low7(v >> 7)) == Acc(v & 0x3FFF, 14)
    ensures Absorb(Acc(v & 0x7F, 7), More(Low7(v >> 7))) == Acc(v & 0x3FFF, 14)
  {
  }

  lemma Absorb2(v: bv32)
    ensures Absorb(Acc(v & 0x3FFF, 14), Low7(v >> 14)) == Acc(v & 0x1F_FFFF, 21)
    ensures Absorb(Acc(v & 0x3FFF, 14), More(Low7(v >> 14))) == Acc(v & 0x1F_FFFF, 21)
  {
  }

  lemma Absorb3(v: bv32)
    ensures Absorb(Acc(v & 0x1F_FFFF, 21), Low7(v >> 21)) == Acc(v & 0x0FFF_FFFF, 28)
    ensures Absorb(Acc(v & 0x1F_FFFF, 21), More(Low7(v >> 21))) == Acc(v & 0x0FFF_FFFF, 28)
  {
  }

  lemma AbsorbOne(v: bv32, k: nat)
    requires k <= 3
    ensures Absorb(Acc(Known(v, k), Position(k)), Low7(Unknown(v, k))) == Acc(Known(v, k + 1), Position(k + 1))
    ensures Absorb(Acc(Known(v, k), Position(k)), More(Low7(Unknown(v, k)))) == Acc(Known(v, k + 1), Position(k + 1))
  {
    hide Absorb, Low7, More;
    Absorb0(v);
    Absorb1(v);
    Absorb2(v);
    Absorb3(v);
  }

  lemma Shrinks(v: bv32)
    ensures Rest(v) == v >> 7 && Rest(v >> 7) == v >> 14 && Rest(v >> 14) == v >> 21 && Rest(v >> 21) == v >> 28
    ensures Rest(v >> 28) == 0
  {
    assert (v >> 7) >> 7 == v >> 14;
    assert (v >> 14) >> 7 == v >> 21;
    assert (v >> 21) >> 7 == v >> 28;
    assert (v >> 28) >> 7 == 0;
  }

  lemma Exhausted(v: bv32)
    ensures Unknown(v, 1) == 0 ==> Known(v, 1) == Known(v, 4)
    ensures Unknown(v, 2) == 0 ==> Known(v, 2) == Known(v, 4)
    ensures Unknown(v, 3) == 0 ==> Known(v, 3) == Known(v, 4)
  {
    hide *;
    Fits7(v);
    Fits14(v);
    Fits21(v);
  }

  lemma Fits7(v: bv32)
    ensures Unknown(v, 1) == 0 ==> Known(v, 1) == Known(v, 4)
  {
    assert v < 0x80 ==> v & 0x7F == v & 0x0FFF_FFFF;
    assert v >> 7 == 0 ==> v < 0x80;
  }

  lemma Fits14(v: bv32)
    ensures Unknown(v, 2) == 0 ==> Known(v, 2) == Known(v, 4)
  {
    assert v < 0x4000 ==> v & 0x3FFF == v & 0x0FFF_FFFF;
    assert v >> 14 == 0 ==> v < 0x4000;
  }

  lemma Fits21(v: bv32)
    ensures Unknown(v, 3) == 0 ==> Known(v, 3) == Known(v, 4)
  {
    assert v < 0x20_0000 ==> v & 0x1F_FFFF == v & 0x0FFF_FFFF;
    assert v >> 21 == 0 ==> v < 0x20_0000;
  }

  lemma Onward(v: bv32, k: nat)
    requires k <= 4
    ensures k < 4 ==> Rest(Unknown(v, k)) == Unknown(v, k + 1)
    ensures k == 4 ==> Rest(Unknown(v, k)) == 0
    ensures k >= 1 && Unknown(v, k) == 0 ==> Known(v, k) == Known(v, 4)
  {
    hide Rest, Known;
    Shrinks(v);
    Exhausted(v);
    if k == 0 {
    } else if k == 1 {
    } else if k == 2 {
    } else if k == 3 {
    }
  }

  lemma {:induction false} AbsorbRest(v: bv32, k: nat)
    requires k <= 4
    ensures AbsorbAll(Acc(Known(v, k), Position(k)), Encode(Unknown(v, k))).value == Known(v, 4)
    decreases 4 - k
  {
    hide Low7, More, Rest, Known, Unknown, Absorb, Position;
    var w, a := Unknown(v, k), Acc(Known(v, k), Position(k));
    var s := Encode(w);
    Onward(v, k);
    assert AbsorbAll(a, s) == AbsorbAll(Absorb(a, s[0]), s[1..]);
    if k == 4 {
      assert s == [Low7(w)];
      NoRoom(v, s[0]);
      assert AbsorbAll(Absorb(a, s[0]), s[1..]) == Absorb(a, s[0]);
    } else {
      AbsorbOne(v, k);
      Onward(v, k + 1);
      if Rest(w) == 0 {
        assert s[1..] == [];
      } else {
        assert s[1..] == Encode(Unknown(v, k + 1));
        AbsorbRest(v, k + 1);
      }
    }
  }

  lemma NoRoom(v: bv32, b: bv8)
    ensures Absorb(Acc(Known(v, 4), Position(4)), b).value == Known(v, 4)
  {
  }

  function Low28(v: bv32): bv32 {
    v & 0x0FFF_FFFF
  }

  // The receiver recovers exactly the low 28 bits of what was sent, so exactly the numbers
  // below 2^28 arrive unchanged.
  lemma RecoversLow28(v: bv32)
    ensures AbsorbAll(START, Encode(v)).value == Low28(v)
    ensures Low28(v) == v <==> v < 0x1000_0000
  {
    AbsorbRest(v, 0);
    hide AbsorbAll, Encode;
    Below28(v);
  }

  lemma Below28(v: bv32)
    ensures v & 0x0FFF_FFFF == v <==> v < 0x1000_0000
  {
  }
}
