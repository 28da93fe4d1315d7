// CRC-16/XMODEM: polynomial 0x1021, most significant bit first.
module Crc16 {

  // ---- Bit-serial definition ----

  // The register operations are named, so that proofs about messages can hide their bits.
  function Xor(x: bv16, y: bv16): bv16 {
    x ^ y
  }

  function Dbl(c: bv16): bv16 {
    c << 1
  }

  function AddPoly(c: bv16): bv16 {
    c ^ 0x1021
  }

  predicate Top(c: bv16) {
    c & 0x8000 != 0
  }

  function Bit(c: bv16): bv16 {
    if Top(c) then AddPoly(Dbl(c)) else Dbl(c)
  }

  function Bits(c: bv16, n: nat): bv16 {
    if n == 0 then c else Bit(Bits(c, n - 1))
  }

  // A data byte in the register's top byte.
  function Lift(b: bv8): bv16 {
    (b as bv16) << 8
  }

  function Step(c: bv16, b: bv8): bv16 {
    Bits(Xor(c, Lift(b)), 8)
  }

  method BitSerial(crc: bv16, data: bv8) returns (r: bv16)
    ensures r == Step(crc, data)
  {
    hide Top, AddPoly, Dbl, Xor, Bits, Lift;
    r := Xor(crc, Lift(data));
    ghost var start := r;
    Unfold(start, 0);
    var i := 0;
    while i < 8
      invariant 0 <= i <= 8 && r == Bits(start, i)
    {
      Unfold(start, i);
      r := if Top(r) then AddPoly(Dbl(r)) else Dbl(r);
      i := i + 1;
    }
  }

  lemma Unfold(c: bv16, n: nat)
    ensures Bits(c, 0) == c
    ensures Bits(c, n + 1) == Bit(Bits(c, n))
  {
  }

  // ---- Table-driven form ----

  // One entry of a row of the table, chosen by the four low bits of j.
  function Row(j: bv8, v0: bv16, v1: bv16, v2: bv16, v3: bv16, v4: bv16, v5: bv16, v6: bv16, v7: bv16,
               v8: bv16, v9: bv16, vA: bv16, vB: bv16, vC: bv16, vD: bv16, vE: bv16, vF: bv16): bv16
  {
    if j & 8 == 0 then
      if j & 4 == 0 then
        if j & 2 == 0 then (if j & 1 == 0 then v0 else v1) else (if j & 1 == 0 then v2 else v3)
      else
        if j & 2 == 0 then (if j & 1 == 0 then v4 else v5) else (if j & 1 == 0 then v6 else v7)
    else
      if j & 4 == 0 then
        if j & 2 == 0 then (if j & 1 == 0 then v8 else v9) else (if j & 1 == 0 then vA else vB)
      else
        if j & 2 == 0 then (if j & 1 == 0 then vC else vD) else (if j & 1 == 0 then vE else vF)
  }

  // The 256-entry table of xtp_crc_table.c, sixteen entries to a row.
  function Table(i: bv8): bv16 {
    var h := i >> 4;
    if h == 0 then Row(i, 0x0000, 0x1021, 0x2042, 0x3063, 0x4084, 0x50A5, 0x60C6, 0x70E7,
                          0x8108, 0x9129, 0xA14A, 0xB16B, 0xC18C, 0xD1AD, 0xE1CE, 0xF1EF) else
    if h == 1 then Row(i, 0x1231, 0x0210, 0x3273, 0x2252, 0x52B5, 0x4294, 0x72F7, 0x62D6,
                          0x9339, 0x8318, 0xB37B, 0xA35A, 0xD3BD, 0xC39C, 0xF3FF, 0xE3DE) else
    if h == 2 then Row(i, 0x2462, 0x3443, 0x0420, 0x1401, 0x64E6, 0x74C7, 0x44A4, 0x5485,
                          0xA56A, 0xB54B, 0x8528, 0x9509, 0xE5EE, 0xF5CF, 0xC5AC, 0xD58D) else
    if h == 3 then Row(i, 0x3653, 0x2672, 0x1611, 0x0630, 0x76D7, 0x66F6, 0x5695, 0x46B4,
                          0xB75B, 0xA77A, 0x9719, 0x8738, 0xF7DF, 0xE7FE, 0xD79D, 0xC7BC) else
    if h == 4 then Row(i, 0x48C4, 0x58E5, 0x6886, 0x78A7, 0x0840, 0x1861, 0x2802, 0x3823,
                          0xC9CC, 0xD9ED, 0xE98E, 0xF9AF, 0x8948, 0x9969, 0xA90A, 0xB92B) else
    if h == 5 then Row(i, 0x5AF5, 0x4AD4, 0x7AB7, 0x6A96, 0x1A71, 0x0A50, 0x3A33, 0x2A12,
                          0xDBFD, 0xCBDC, 0xFBBF, 0xEB9E, 0x9B79, 0x8B58, 0xBB3B, 0xAB1A) else
    if h == 6 then Row(i, 0x6CA6, 0x7C87, 0x4CE4, 0x5CC5, 0x2C22, 0x3C03, 0x0C60, 0x1C41,
                          0xEDAE, 0xFD8F, 0xCDEC, 0xDDCD, 0xAD2A, 0xBD0B, 0x8D68, 0x9D49) else
    if h == 7 then Row(i, 0x7E97, 0x6EB6, 0x5ED5, 0x4EF4, 0x3E13, 0x2E32, 0x1E51, 0x0E70,
                          0xFF9F, 0xEFBE, 0xDFDD, 0xCFFC, 0xBF1B, 0xAF3A, 0x9F59, 0x8F78) else
    if h == 8 then Row(i, 0x9188, 0x81A9, 0xB1CA, 0xA1EB, 0xD10C, 0xC12D, 0xF14E, 0xE16F,
                          0x1080, 0x00A1, 0x30C2, 0x20E3, 0x5004, 0x4025, 0x7046, 0x6067) else
    if h == 9 then Row(i, 0x83B9, 0x9398, 0xA3FB, 0xB3DA, 0xC33D, 0xD31C, 0xE37F, 0xF35E,
                          0x02B1, 0x1290, 0x22F3, 0x32D2, 0x4235, 0x5214, 0x6277, 0x7256) else
    if h == 10 then Row(i, 0xB5EA, 0xA5CB, 0x95A8, 0x8589, 0xF56E, 0xE54F, 0xD52C, 0xC50D,
                           0x34E2, 0x24C3, 0x14A0, 0x0481, 0x7466, 0x6447, 0x5424, 0x4405) else
    if h == 11 then Row(i, 0xA7DB, 0xB7FA, 0x8799, 0x97B8, 0xE75F, 0xF77E, 0xC71D, 0xD73C,
                           0x26D3, 0x36F2, 0x0691, 0x16B0, 0x6657, 0x7676, 0x4615, 0x5634) else
    if h == 12 then Row(i, 0xD94C, 0xC96D, 0xF90E, 0xE92F, 0x99C8, 0x89E9, 0xB98A, 0xA9AB,
                           0x5844, 0x4865, 0x7806, 0x6827, 0x18C0, 0x08E1, 0x3882, 0x28A3) else
    if h == 13 then Row(i, 0xCB7D, 0xDB5C, 0xEB3F, 0xFB1E, 0x8BF9, 0x9BD8, 0xABBB, 0xBB9A,
                           0x4A75, 0x5A54, 0x6A37, 0x7A16, 0x0AF1, 0x1AD0, 0x2AB3, 0x3A92) else
    if h == 14 then Row(i, 0xFD2E, 0xED0F, 0xDD6C, 0xCD4D, 0xBDAA, 0xAD8B, 0x9DE8, 0x8DC9,
                           0x7C26, 0x6C07, 0x5C64, 0x4C45, 0x3CA2, 0x2C83, 0x1CE0, 0x0CC1) else
    Row(i, 0xEF1F, 0xFF3E, 0xCF5D, 0xDF7C, 0xAF9B, 0xBFBA, 0x8FD9, 0x9FF8,
           0x6E17, 0x7E36, 0x4E55, 0x5E74, 0x2E93, 0x3EB2, 0x0ED1, 0x1EF0)
  }

  function TableStep(c: bv16, b: bv8): bv16 {
    Xor(c << 8, Table(((c >> 8) as bv8) ^ b))
  }

  // ---- Any number of bit-steps is linear over XOR ----

  lemma XorCommutes(x: bv16, y: bv16)
    ensures Xor(x, y) == Xor(y, x)
  {
  }

  lemma TopXor(x: bv16, y: bv16)
    ensures Top(Xor(x, y)) <==> Top(x) != Top(y)
  {
  }

  lemma DblXor(x: bv16, y: bv16)
    ensures Dbl(Xor(x, y)) == Xor(Dbl(x), Dbl(y))
  {
    assert (x ^ y) << 1 == (x << 1) ^ (y << 1);
  }

  lemma PolyXor(x: bv16, y: bv16)
    ensures Xor(AddPoly(x), y) == AddPoly(Xor(x, y))
    ensures Xor(x, AddPoly(y)) == AddPoly(Xor(x, y))
    ensures Xor(AddPoly(x), AddPoly(y)) == Xor(x, y)
  {
    PolyMoves(x, y);
    PolyMoves(y, x);
    PolyCancels(x, y);
    XorCommutes(x, y);
    XorCommutes(x, AddPoly(y));
    hide *;
  }

  lemma PolyMoves(x: bv16, y: bv16)
    ensures Xor(AddPoly(x), y) == AddPoly(Xor(x, y))
  {
    calc {
      Xor(AddPoly(x), y);
      Xor(x ^ 0x1021, y);
      (x ^ 0x1021) ^ y;
      (x ^ y) ^ 0x1021;
      AddPoly(x ^ y);
      AddPoly(Xor(x, y));
    }
  }

  lemma PolyCancels(x: bv16, y: bv16)
    ensures Xor(AddPoly(x), AddPoly(y)) == Xor(x, y)
  {
    calc {
      Xor(AddPoly(x), AddPoly(y));
      Xor(x ^ 0x1021, y ^ 0x1021);
      (x ^ 0x1021) ^ (y ^ 0x1021);
      x ^ y;
      Xor(x, y);
    }
  }

  lemma BitLinear(x: bv16, y: bv16)
    ensures Bit(Xor(x, y)) == Xor(Bit(x), Bit(y))
  {
    hide Top, Dbl, AddPoly, Xor;
    TopXor(x, y);
    DblXor(x, y);
    PolyXor(Dbl(x), Dbl(y));
  }

  lemma {:induction false} BitsLinear(x: bv16, y: bv16, n: nat)
    ensures Bits(Xor(x, y), n) == Xor(Bits(x, n), Bits(y, n))
  {
    hide Bit, Xor;
    if n != 0 {
      BitsLinear(x, y, n - 1);
      BitLinear(Bits(x, n - 1), Bits(y, n - 1));
    }
  }

  // ---- The table holds eight bit-steps of every byte ----

  lemma EightBits(c0: bv16, c1: bv16, c2: bv16, c3: bv16, c4: bv16, c5: bv16, c6: bv16, c7: bv16, c8: bv16)
    requires Bit(c0) == c1 && Bit(c1) == c2 && Bit(c2) == c3 && Bit(c3) == c4
    requires Bit(c4) == c5 && Bit(c5) == c6 && Bit(c6) == c7 && Bit(c7) == c8
    ensures Bits(c0, 8) == c8
  {
    hide Bit, Bits;
    Unfold(c0, 0);
    Unfold(c0, 1);
    Unfold(c0, 2);
    Unfold(c0, 3);
    Unfold(c0, 4);
    Unfold(c0, 5);
    Unfold(c0, 6);
    Unfold(c0, 7);
  }

  // Eight bit-steps of nothing and of each single-bit byte.
  lemma SingleBits()
    ensures Bits(0, 8) == 0
    ensures Bits(0x0100, 8) == 0x1021
    ensures Bits(0x0200, 8) == 0x2042
    ensures Bits(0x0400, 8) == 0x4084
    ensures Bits(0x0800, 8) == 0x8108
    ensures Bits(0x1000, 8) == 0x1231
    ensures Bits(0x2000, 8) == 0x2462
    ensures Bits(0x4000, 8) == 0x48C4
    ensures Bits(0x8000, 8) == 0x9188
  {
    hide Bits;
    EightBits(0, 0, 0, 0, 0, 0, 0, 0, 0);
    EightBits(0x0100, 0x0200, 0x0400, 0x0800, 0x1000, 0x2000, 0x4000, 0x8000, 0x1021);
    EightBits(0x0200, 0x0400, 0x0800, 0x1000, 0x2000, 0x4000, 0x8000, 0x1021, 0x2042);
    EightBits(0x0400, 0x0800, 0x1000, 0x2000, 0x4000, 0x8000, 0x1021, 0x2042, 0x4084);
    EightBits(0x0800, 0x1000, 0x2000, 0x4000, 0x8000, 0x1021, 0x2042, 0x4084, 0x8108);
    EightBits(0x1000, 0x2000, 0x4000, 0x8000, 0x1021, 0x2042, 0x4084, 0x8108, 0x1231);
    EightBits(0x2000, 0x4000, 0x8000, 0x1021, 0x2042, 0x4084, 0x8108, 0x1231, 0x2462);
    EightBits(0x4000, 0x8000, 0x1021, 0x2042, 0x4084, 0x8108, 0x1231, 0x2462, 0x48C4);
    EightBits(0x8000, 0x1021, 0x2042, 0x4084, 0x8108, 0x1231, 0x2462, 0x48C4, 0x9188);
  }

  // c when the low bit of b is set, else 0.
  function Part(b: bv8, c: bv16): bv16 {
    (0 - ((b & 1) as bv16)) & c
  }

  lemma PartCases(b: bv8, c: bv16)
    ensures b & 1 == 0 ==> Part(b, c) == 0
    ensures b & 1 != 0 ==> Part(b, c) == c
  {
  }

  // The table is linear in its index; one case per row.
  lemma TableSum(i: bv8)
    ensures Table(i) == Xor(Part(i >> 0, 0x1021), Xor(Part(i >> 1, 0x2042), Xor(Part(i >> 2, 0x4084),
                        Xor(Part(i >> 3, 0x8108), Xor(Part(i >> 4, 0x1231), Xor(Part(i >> 5, 0x2462),
                        Xor(Part(i >> 6, 0x48C4), Part(i >> 7, 0x9188))))))))
  {
    if i >> 4 == 0 { return; }
    if i >> 4 == 1 { return; }
    if i >> 4 == 2 { return; }
    if i >> 4 == 3 { return; }
    if i >> 4 == 4 { return; }
    if i >> 4 == 5 { return; }
    if i >> 4 == 6 { return; }
    if i >> 4 == 7 { return; }
    if i >> 4 == 8 { return; }
    if i >> 4 == 9 { return; }
    if i >> 4 == 10 { return; }
    if i >> 4 == 11 { return; }
    if i >> 4 == 12 { return; }
    if i >> 4 == 13 { return; }
    if i >> 4 == 14 { return; }
  }

  // So is the byte it is indexed by.
  lemma LiftSum(i: bv8)
    ensures Lift(i) == Xor(Lift(i & 0x01), Xor(Lift(i & 0x02), Xor(Lift(i & 0x04),
                       Xor(Lift(i & 0x08), Xor(Lift(i & 0x10), Xor(Lift(i & 0x20),
                       Xor(Lift(i & 0x40), Lift(i & 0x80))))))))
  {
  }

  // Eight bit-steps of one bit of i.
  lemma PartBits(b: bv8, p: bv8, c: bv16)
    requires b & 1 == 0 ==> Lift(p) == 0
    requires b & 1 != 0 ==> Bits(Lift(p), 8) == c
    ensures Part(b, c) == Bits(Lift(p), 8)
  {
    hide Part, Bits;
    PartCases(b, c);
    SingleBits();
  }

  lemma SingleLift(i: bv8)
    ensures if (i >> 0) & 1 == 0 then Lift(i & 0x01) == 0 else Lift(i & 0x01) == 0x0100
    ensures if (i >> 1) & 1 == 0 then Lift(i & 0x02) == 0 else Lift(i & 0x02) == 0x0200
    ensures if (i >> 2) & 1 == 0 then Lift(i & 0x04) == 0 else Lift(i & 0x04) == 0x0400
    ensures if (i >> 3) & 1 == 0 then Lift(i & 0x08) == 0 else Lift(i & 0x08) == 0x0800
    ensures if (i >> 4) & 1 == 0 then Lift(i & 0x10) == 0 else Lift(i & 0x10) == 0x1000
    ensures if (i >> 5) & 1 == 0 then Lift(i & 0x20) == 0 else Lift(i & 0x20) == 0x2000
    ensures if (i >> 6) & 1 == 0 then Lift(i & 0x40) == 0 else Lift(i & 0x40) == 0x4000
    ensures if (i >> 7) & 1 == 0 then Lift(i & 0x80) == 0 else Lift(i & 0x80) == 0x8000
  {
  }

  // Each table entry is eight bit-steps of its index in the register's top byte.
  lemma Entry(i: bv8)
    ensures Table(i) == Bits(Lift(i), 8)
  {
    hide Table, Bits, Lift, Part, Xor;
    TableSum(i);
    LiftSum(i);
    SingleLift(i);
    SingleBits();
    PartBits(i >> 0, i & 0x01, 0x1021);
    PartBits(i >> 1, i & 0x02, 0x2042);
    PartBits(i >> 2, i & 0x04, 0x4084);
    PartBits(i >> 3, i & 0x08, 0x8108);
    PartBits(i >> 4, i & 0x10, 0x1231);
    PartBits(i >> 5, i & 0x20, 0x2462);
    PartBits(i >> 6, i & 0x40, 0x48C4);
    PartBits(i >> 7, i & 0x80, 0x9188);
    var s6 := Xor(Lift(i & 0x40), Lift(i & 0x80));
    var s5 := Xor(Lift(i & 0x20), s6);
    var s4 := Xor(Lift(i & 0x10), s5);
    var s3 := Xor(Lift(i & 0x08), s4);
    var s2 := Xor(Lift(i & 0x04), s3);
    var s1 := Xor(Lift(i & 0x02), s2);
    BitsLinear(Lift(i & 0x40), Lift(i & 0x80), 8);
    BitsLinear(Lift(i & 0x20), s6, 8);
    BitsLinear(Lift(i & 0x10), s5, 8);
    BitsLinear(Lift(i & 0x08), s4, 8);
    BitsLinear(Lift(i & 0x04), s3, 8);
    BitsLinear(Lift(i & 0x02), s2, 8);
    BitsLinear(Lift(i & 0x01), s1, 8);
  }

  // The fast form computes the same register as the bit-serial form.
  lemma TableStepIsStep(c: bv16, b: bv8)
    ensures TableStep(c, b) == Step(c, b)
  {
    hide Table, Bits, Xor, Lift;
    var i := ((c >> 8) as bv8) ^ b;
    var lo := c & 0x00FF;
    SplitRegister(c, b);
    BitsLinear(Lift(i), lo, 8);
    Entry(i);
    LowBits(lo);
    XorCommutes(Bits(Lift(i), 8), lo << 8);
    KeepLow(c);
  }

  lemma SplitRegister(c: bv16, b: bv8)
    ensures Xor(c, Lift(b)) == Xor(Lift(((c >> 8) as bv8) ^ b), c & 0x00FF)
  {
    assert c ^ ((b as bv16) << 8) == (((((c >> 8) as bv8) ^ b) as bv16) << 8) ^ (c & 0x00FF);
  }

  lemma KeepLow(c: bv16)
    ensures (c & 0x00FF) << 8 == c << 8
  {
  }

  // With the top byte clear, eight bit-steps only shift.
  lemma LowBits(lo: bv16)
    requires lo & (0xFFFF ^ 0x00FF) == 0
    ensures Bits(lo, 8) == lo << 8
  {
    var d1 := Dbl(lo);
    var d2 := Dbl(d1);
    var d3 := Dbl(d2);
    var d4 := Dbl(d3);
    var d5 := Dbl(d4);
    var d6 := Dbl(d5);
    var d7 := Dbl(d6);
    hide Bits, Top, Dbl, AddPoly;
    TopsClear(lo);
    EightBits(lo, d1, d2, d3, d4, d5, d6, d7, Dbl(d7));
    EightShifts(lo);
  }

  lemma TopsClear(lo: bv16)
    requires lo & (0xFFFF ^ 0x00FF) == 0
    ensures !Top(lo) && !Top(Dbl(lo)) && !Top(Dbl(Dbl(lo))) && !Top(Dbl(Dbl(Dbl(lo))))
    ensures !Top(Dbl(Dbl(Dbl(Dbl(lo))))) && !Top(Dbl(Dbl(Dbl(Dbl(Dbl(lo))))))
    ensures !Top(Dbl(Dbl(Dbl(Dbl(Dbl(Dbl(lo))))))) && !Top(Dbl(Dbl(Dbl(Dbl(Dbl(Dbl(Dbl(lo))))))))
  {
  }

  lemma EightShifts(c: bv16)
    ensures Dbl(Dbl(Dbl(Dbl(Dbl(Dbl(Dbl(Dbl(c)))))))) == c << 8
  {
  }

  // ---- Nothing is lost in a step ----

  lemma BitInjective(x: bv16, y: bv16)
    requires Bit(x) == Bit(y)
    ensures x == y
  {
    hide Top, Dbl, AddPoly;
    ConstantTerm(x, y);
    ConstantTerm(y, x);
    if Top(x) && Top(y) {
      SamePoly(Dbl(x), Dbl(y));
    }
    SameDbl(x, y);
  }

  // The polynomial's constant term lands in the bit that the shift leaves clear.
  lemma ConstantTerm(x: bv16, y: bv16)
    ensures Dbl(x) != AddPoly(Dbl(y))
  {
  }

  lemma SamePoly(x: bv16, y: bv16)
    requires AddPoly(x) == AddPoly(y)
    ensures x == y
  {
  }

  lemma SameDbl(x: bv16, y: bv16)
    requires Dbl(x) == Dbl(y) && Top(x) == Top(y)
    ensures x == y
  {
  }

  lemma {:induction false} BitsInjective(x: bv16, y: bv16, n: nat)
    requires Bits(x, n) == Bits(y, n)
    ensures x == y
  {
    hide Bit;
    if n != 0 {
      BitInjective(Bits(x, n - 1), Bits(y, n - 1));
      BitsInjective(x, y, n - 1);
    }
  }

  // Equal outcomes of one step: the registers agree exactly when the bytes do.
  lemma StepInjective(c: bv16, d: bv16, a: bv8, b: bv8)
    requires Step(c, a) == Step(d, b)
    ensures c == d <==> a == b
  {
    hide Bits, Xor, Lift;
    BitsInjective(Xor(c, Lift(a)), Xor(d, Lift(b)), 8);
    if c == d {
      SameRegister(c, a, b);
    } else if a == b {
      SameByte(c, d, b);
    }
  }

  lemma SameRegister(c: bv16, a: bv8, b: bv8)
    requires Xor(c, Lift(a)) == Xor(c, Lift(b))
    ensures a == b
  {
  }

  lemma SameByte(c: bv16, d: bv16, b: bv8)
    requires Xor(c, Lift(b)) == Xor(d, Lift(b))
    ensures c == d
  {
  }

  // ---- Two neighbouring bytes ----

  function LowPart(c: bv16): bv16 {
    c & 0x00FF
  }

  function Index(c: bv16, b: bv8): bv8 {
    ((c >> 8) as bv8) ^ b
  }

  // What a byte leaves below the register's top byte tells which byte it was.
  lemma LowPartInjective(i: bv8, j: bv8)
    requires LowPart(Table(i)) == LowPart(Table(j))
    ensures i == j
  {
    TableSum(i);
    TableSum(j);
    hide Table;
  }

  lemma SameLow(x: bv16, y: bv16, a: bv8, b: bv8)
    requires Xor(x, Lift(a)) == Xor(y, Lift(b))
    ensures LowPart(x) == LowPart(y)
  {
  }

  lemma SameIndex(c: bv16, a: bv8, b: bv8)
    requires Index(c, a) == Index(c, b)
    ensures a == b
  {
  }

  lemma SameShift(s: bv16, t: bv16, u: bv16)
    requires LowPart(Xor(s, t)) == LowPart(Xor(s, u))
    ensures LowPart(t) == LowPart(u)
  {
  }

  lemma StepByIndex(c: bv16, b: bv8)
    ensures Step(c, b) == Xor(c << 8, Table(Index(c, b)))
  {
    TableStepIsStep(c, b);
    hide Step, Table, Xor;
  }

  lemma StepLowInjective(c: bv16, a: bv8, b: bv8)
    requires LowPart(Step(c, a)) == LowPart(Step(c, b))
    ensures a == b
  {
    hide Step, Table, Xor, Index, LowPart;
    StepByIndex(c, a);
    StepByIndex(c, b);
    SameShift(c << 8, Table(Index(c, a)), Table(Index(c, b)));
    LowPartInjective(Index(c, a), Index(c, b));
    SameIndex(c, a, b);
  }

  lemma StepsMeet(x: bv16, y: bv16, a: bv8, b: bv8)
    requires Step(x, a) == Step(y, b)
    ensures LowPart(x) == LowPart(y)
  {
    hide Bits, Xor, Lift, LowPart;
    BitsInjective(Xor(x, Lift(a)), Xor(y, Lift(b)), 8);
    SameLow(x, y, a, b);
  }

  // Different pairs of bytes take a register to different registers.
  lemma TwoSteps(c: bv16, a: bv8, b: bv8, a': bv8, b': bv8)
    requires Step(Step(c, a), b) == Step(Step(c, a'), b')
    ensures a == a' && b == b'
  {
    hide Step, LowPart;
    StepsMeet(Step(c, a), Step(c, a'), b, b');
    StepLowInjective(c, a, a');
    StepInjective(Step(c, a), Step(c, a'), b, b');
  }

  // ---- A change that the register forgets ----

  lemma Shifted(x: bv16, y: bv16, a: bv8, b: bv8, lo: bv16)
    requires Xor(y, Lift(b)) == Xor(Xor(x, Lift(a)), lo) && lo & (0xFFFF ^ 0x00FF) == 0
    ensures Step(y, b) == Xor(Step(x, a), lo << 8)
  {
    hide Bits, Xor, Lift;
    BitsLinear(Xor(x, Lift(a)), lo, 8);
    LowBits(lo);
  }

  lemma LastBitAltered(c: bv16, a: bv8)
    ensures Step(c, a ^ 0x01) == Xor(Step(c, a), 0x1021)
  {
    LiftAltered(c, a);
    SingleBits();
    hide Bits, Xor, Lift;
    BitsLinear(Xor(c, Lift(a)), 0x0100, 8);
  }

  lemma LiftAltered(c: bv16, a: bv8)
    ensures Xor(c, Lift(a ^ 0x01)) == Xor(Xor(c, Lift(a)), 0x0100)
  {
  }

  // Three neighbouring bytes altered by the polynomial itself: the register is the same.
  lemma PolynomialUnnoticed(c: bv16, a: bv8, b: bv8, d: bv8)
    ensures Step(Step(Step(c, a ^ 0x01), b ^ 0x10), d ^ 0x21) == Step(Step(Step(c, a), b), d)
  {
    var x, y := Step(c, a), Step(Step(c, a), b);
    LastBitAltered(c, a);
    Cancel1(x, b);
    Shifted(x, Xor(x, 0x1021), b, b ^ 0x10, 0x0021);
    Cancel2(y, d);
    hide Bits;
  }

  lemma Cancel1(x: bv16, b: bv8)
    ensures Xor(Xor(x, 0x1021), Lift(b ^ 0x10)) == Xor(Xor(x, Lift(b)), 0x0021)
  {
  }

  lemma Cancel2(y: bv16, d: bv8)
    ensures Xor(Xor(y, 0x2100), Lift(d ^ 0x21)) == Xor(y, Lift(d))
  {
  }
}
