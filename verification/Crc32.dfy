// CRC-32 without reflection: polynomial 0x04C11DB7, most significant bit first.
module Crc32 {

  // ---- Bit-serial definition ----

  // The register operations are named, so that proofs about messages can hide their bits.
  function Xor(x: bv32, y: bv32): bv32 {
    x ^ y
  }

  function Dbl(c: bv32): bv32 {
    c << 1
  }

  function AddPoly(c: bv32): bv32 {
    c ^ 0x04C11DB7
  }

  predicate Top(c: bv32) {
    c & 0x8000_0000 != 0
  }

  function Bit(c: bv32): bv32 {
    if Top(c) then AddPoly(Dbl(c)) else Dbl(c)
  }

  function Bits(c: bv32, n: nat): bv32 {
    if n == 0 then c else Bit(Bits(c, n - 1))
  }

  // A data byte in the register's top byte.
  function Lift(b: bv8): bv32 {
    (b as bv32) << 24
  }

  function Step(c: bv32, b: bv8): bv32 {
    Bits(Xor(c, Lift(b)), 8)
  }

  method BitSerial(crc: bv32, data: bv8) returns (r: bv32)
    ensures r == Step(crc, data)
  {
    hide Top, AddPoly, Dbl, Xor, Bits, Lift;
    r := Xor(crc, Lift(data));
    ghost var start := r;
    Unfold(start, 0);
    var i := 0;
    while i < 8
      invariant 0 <= i <= 8 && r == Bits(start, i)
    {
      Unfold(start, i);
      r := if Top(r) then AddPoly(Dbl(r)) else Dbl(r);
      i := i + 1;
    }
  }

  lemma Unfold(c: bv32, n: nat)
    ensures Bits(c, 0) == c
    ensures Bits(c, n + 1) == Bit(Bits(c, n))
  {
  }

  // ---- Table-driven form ----

  // One entry of a row of the table, chosen by the four low bits of j.
  function Row(j: bv8, v0: bv32, v1: bv32, v2: bv32, v3: bv32, v4: bv32, v5: bv32, v6: bv32, v7: bv32,
               v8: bv32, v9: bv32, vA: bv32, vB: bv32, vC: bv32, vD: bv32, vE: bv32, vF: bv32): bv32
  {
    if j & 8 == 0 then
      if j & 4 == 0 then
        if j & 2 == 0 then (if j & 1 == 0 then v0 else v1) else (if j & 1 == 0 then v2 else v3)
      else
        if j & 2 == 0 then (if j & 1 == 0 then v4 else v5) else (if j & 1 == 0 then v6 else v7)
    else
      if j & 4 == 0 then
        if j & 2 == 0 then (if j & 1 == 0 then v8 else v9) else (if j & 1 == 0 then vA else vB)
      else
        if j & 2 == 0 then (if j & 1 == 0 then vC else vD) else (if j & 1 == 0 then vE else vF)
  }

  // The 256-entry table of xtp_crc_table.c, sixteen entries to a row.
  function Table(i: bv8): bv32 {
    var h := i >> 4;
    if h == 0 then Row(i, 0x00000000, 0x04C11DB7, 0x09823B6E, 0x0D4326D9, 0x130476DC, 0x17C56B6B, 0x1A864DB2, 0x1E475005,
                          0x2608EDB8, 0x22C9F00F, 0x2F8AD6D6, 0x2B4BCB61, 0x350C9B64, 0x31CD86D3, 0x3C8EA00A, 0x384FBDBD) else
    if h == 1 then Row(i, 0x4C11DB70, 0x48D0C6C7, 0x4593E01E, 0x4152FDA9, 0x5F15ADAC, 0x5BD4B01B, 0x569796C2, 0x52568B75,
                          0x6A1936C8, 0x6ED82B7F, 0x639B0DA6, 0x675A1011, 0x791D4014, 0x7DDC5DA3, 0x709F7B7A, 0x745E66CD) else
    if h == 2 then Row(i, 0x9823B6E0, 0x9CE2AB57, 0x91A18D8E, 0x95609039, 0x8B27C03C, 0x8FE6DD8B, 0x82A5FB52, 0x8664E6E5,
                          0xBE2B5B58, 0xBAEA46EF, 0xB7A96036, 0xB3687D81, 0xAD2F2D84, 0xA9EE3033, 0xA4AD16EA, 0xA06C0B5D) else
    if h == 3 then Row(i, 0xD4326D90, 0xD0F37027, 0xDDB056FE, 0xD9714B49, 0xC7361B4C, 0xC3F706FB, 0xCEB42022, 0xCA753D95,
                          0xF23A8028, 0xF6FB9D9F, 0xFBB8BB46, 0xFF79A6F1, 0xE13EF6F4, 0xE5FFEB43, 0xE8BCCD9A, 0xEC7DD02D) else
    if h == 4 then Row(i, 0x34867077, 0x30476DC0, 0x3D044B19, 0x39C556AE, 0x278206AB, 0x23431B1C, 0x2E003DC5, 0x2AC12072,
                          0x128E9DCF, 0x164F8078, 0x1B0CA6A1, 0x1FCDBB16, 0x018AEB13, 0x054BF6A4, 0x0808D07D, 0x0CC9CDCA) else
    if h == 5 then Row(i, 0x7897AB07, 0x7C56B6B0, 0x71159069, 0x75D48DDE, 0x6B93DDDB, 0x6F52C06C, 0x6211E6B5, 0x66D0FB02,
                          0x5E9F46BF, 0x5A5E5B08, 0x571D7DD1, 0x53DC6066, 0x4D9B3063, 0x495A2DD4, 0x44190B0D, 0x40D816BA) else
    if h == 6 then Row(i, 0xACA5C697, 0xA864DB20, 0xA527FDF9, 0xA1E6E04E, 0xBFA1B04B, 0xBB60ADFC, 0xB6238B25, 0xB2E29692,
                          0x8AAD2B2F, 0x8E6C3698, 0x832F1041, 0x87EE0DF6, 0x99A95DF3, 0x9D684044, 0x902B669D, 0x94EA7B2A) else
    if h == 7 then Row(i, 0xE0B41DE7, 0xE4750050, 0xE9362689, 0xEDF73B3E, 0xF3B06B3B, 0xF771768C, 0xFA325055, 0xFEF34DE2,
                          0xC6BCF05F, 0xC27DEDE8, 0xCF3ECB31, 0xCBFFD686, 0xD5B88683, 0xD1799B34, 0xDC3ABDED, 0xD8FBA05A) else
    if h == 8 then Row(i, 0x690CE0EE, 0x6DCDFD59, 0x608EDB80, 0x644FC637, 0x7A089632, 0x7EC98B85, 0x738AAD5C, 0x774BB0EB,
                          0x4F040D56, 0x4BC510E1, 0x46863638, 0x42472B8F, 0x5C007B8A, 0x58C1663D, 0x558240E4, 0x51435D53) else
    if h == 9 then Row(i, 0x251D3B9E, 0x21DC2629, 0x2C9F00F0, 0x285E1D47, 0x36194D42, 0x32D850F5, 0x3F9B762C, 0x3B5A6B9B,
                          0x0315D626, 0x07D4CB91, 0x0A97ED48, 0x0E56F0FF, 0x1011A0FA, 0x14D0BD4D, 0x19939B94, 0x1D528623) else
    if h == 10 then Row(i, 0xF12F560E, 0xF5EE4BB9, 0xF8AD6D60, 0xFC6C70D7, 0xE22B20D2, 0xE6EA3D65, 0xEBA91BBC, 0xEF68060B,
                           0xD727BBB6, 0xD3E6A601, 0xDEA580D8, 0xDA649D6F, 0xC423CD6A, 0xC0E2D0DD, 0xCDA1F604, 0xC960EBB3) else
    if h == 11 then Row(i, 0xBD3E8D7E, 0xB9FF90C9, 0xB4BCB610, 0xB07DABA7, 0xAE3AFBA2, 0xAAFBE615, 0xA7B8C0CC, 0xA379DD7B,
                           0x9B3660C6, 0x9FF77D71, 0x92B45BA8, 0x9675461F, 0x8832161A, 0x8CF30BAD, 0x81B02D74, 0x857130C3) else
    if h == 12 then Row(i, 0x5D8A9099, 0x594B8D2E, 0x5408ABF7, 0x50C9B640, 0x4E8EE645, 0x4A4FFBF2, 0x470CDD2B, 0x43CDC09C,
                           0x7B827D21, 0x7F436096, 0x7200464F, 0x76C15BF8, 0x68860BFD, 0x6C47164A, 0x61043093, 0x65C52D24) else
    if h == 13 then Row(i, 0x119B4BE9, 0x155A565E, 0x18197087, 0x1CD86D30, 0x029F3D35, 0x065E2082, 0x0B1D065B, 0x0FDC1BEC,
                           0x3793A651, 0x3352BBE6, 0x3E119D3F, 0x3AD08088, 0x2497D08D, 0x2056CD3A, 0x2D15EBE3, 0x29D4F654) else
    if h == 14 then Row(i, 0xC5A92679, 0xC1683BCE, 0xCC2B1D17, 0xC8EA00A0, 0xD6AD50A5, 0xD26C4D12, 0xDF2F6BCB, 0xDBEE767C,
                           0xE3A1CBC1, 0xE760D676, 0xEA23F0AF, 0xEEE2ED18, 0xF0A5BD1D, 0xF464A0AA, 0xF9278673, 0xFDE69BC4) else
    Row(i, 0x89B8FD09, 0x8D79E0BE, 0x803AC667, 0x84FBDBD0, 0x9ABC8BD5, 0x9E7D9662, 0x933EB0BB, 0x97FFAD0C,
           0xAFB010B1, 0xAB710D06, 0xA6322BDF, 0xA2F33668, 0xBCB4666D, 0xB8757BDA, 0xB5365D03, 0xB1F740B4)
  }

  function TableStep(c: bv32, b: bv8): bv32 {
    Xor(c << 8, Table(((c >> 24) as bv8) ^ b))
  }

  // ---- Any number of bit-steps is linear over XOR ----

  lemma XorCommutes(x: bv32, y: bv32)
    ensures Xor(x, y) == Xor(y, x)
  {
  }

  lemma TopXor(x: bv32, y: bv32)
    ensures Top(Xor(x, y)) <==> Top(x) != Top(y)
  {
  }

  lemma DblXor(x: bv32, y: bv32)
    ensures Dbl(Xor(x, y)) == Xor(Dbl(x), Dbl(y))
  {
    assert (x ^ y) << 1 == (x << 1) ^ (y << 1);
  }

  lemma PolyXor(x: bv32, y: bv32)
    ensures Xor(AddPoly(x), y) == AddPoly(Xor(x, y))
    ensures Xor(x, AddPoly(y)) == AddPoly(Xor(x, y))
    ensures Xor(AddPoly(x), AddPoly(y)) == Xor(x, y)
  {
    PolyMoves(x, y);
    PolyMoves(y, x);
    PolyCancels(x, y);
    XorCommutes(x, y);
    XorCommutes(x, AddPoly(y));
    hide *;
  }

  lemma PolyMoves(x: bv32, y: bv32)
    ensures Xor(AddPoly(x), y) == AddPoly(Xor(x, y))
  {
    calc {
      Xor(AddPoly(x), y);
      Xor(x ^ 0x04C11DB7, y);
      (x ^ 0x04C11DB7) ^ y;
      (x ^ y) ^ 0x04C11DB7;
      AddPoly(x ^ y);
      AddPoly(Xor(x, y));
    }
  }

  lemma PolyCancels(x: bv32, y: bv32)
    ensures Xor(AddPoly(x), AddPoly(y)) == Xor(x, y)
  {
    calc {
      Xor(AddPoly(x), AddPoly(y));
      Xor(x ^ 0x04C11DB7, y ^ 0x04C11DB7);
      (x ^ 0x04C11DB7) ^ (y ^ 0x04C11DB7);
      x ^ y;
      Xor(x, y);
    }
  }

  lemma BitLinear(x: bv32, y: bv32)
    ensures Bit(Xor(x, y)) == Xor(Bit(x), Bit(y))
  {
    hide Top, Dbl, AddPoly, Xor;
    TopXor(x, y);
    DblXor(x, y);
    PolyXor(Dbl(x), Dbl(y));
  }

  lemma {:induction false} BitsLinear(x: bv32, y: bv32, n: nat)
    ensures Bits(Xor(x, y), n) == Xor(Bits(x, n), Bits(y, n))
  {
    hide Bit, Xor;
    if n != 0 {
      BitsLinear(x, y, n - 1);
      BitLinear(Bits(x, n - 1), Bits(y, n - 1));
    }
  }

  // ---- The table holds eight bit-steps of every byte ----

  lemma EightBits(c0: bv32, c1: bv32, c2: bv32, c3: bv32, c4: bv32, c5: bv32, c6: bv32, c7: bv32, c8: bv32)
    requires Bit(c0) == c1 && Bit(c1) == c2 && Bit(c2) == c3 && Bit(c3) == c4
    requires Bit(c4) == c5 && Bit(c5) == c6 && Bit(c6) == c7 && Bit(c7) == c8
    ensures Bits(c0, 8) == c8
  {
    hide Bit, Bits;
    Unfold(c0, 0);
    Unfold(c0, 1);
    Unfold(c0, 2);
    Unfold(c0, 3);
    Unfold(c0, 4);
    Unfold(c0, 5);
    Unfold(c0, 6);
    Unfold(c0, 7);
  }

  // Eight bit-steps of nothing and of each single-bit byte.
  lemma SingleBits()
    ensures Bits(0, 8) == 0
    ensures Bits(0x01000000, 8) == 0x04C11DB7
    ensures Bits(0x02000000, 8) == 0x09823B6E
    ensures Bits(0x04000000, 8) == 0x130476DC
    ensures Bits(0x08000000, 8) == 0x2608EDB8
    ensures Bits(0x10000000, 8) == 0x4C11DB70
    ensures Bits(0x20000000, 8) == 0x9823B6E0
    ensures Bits(0x40000000, 8) == 0x34867077
    ensures Bits(0x80000000, 8) == 0x690CE0EE
  {
    hide Bits;
    EightBits(0, 0, 0, 0, 0, 0, 0, 0, 0);
    EightBits(0x01000000, 0x02000000, 0x04000000, 0x08000000, 0x10000000,
              0x20000000, 0x40000000, 0x80000000, 0x04C11DB7);
    EightBits(0x02000000, 0x04000000, 0x08000000, 0x10000000, 0x20000000,
              0x40000000, 0x80000000, 0x04C11DB7, 0x09823B6E);
    EightBits(0x04000000, 0x08000000, 0x10000000, 0x20000000, 0x40000000,
              0x80000000, 0x04C11DB7, 0x09823B6E, 0x130476DC);
    EightBits(0x08000000, 0x10000000, 0x20000000, 0x40000000, 0x80000000,
              0x04C11DB7, 0x09823B6E, 0x130476DC, 0x2608EDB8);
    EightBits(0x10000000, 0x20000000, 0x40000000, 0x80000000, 0x04C11DB7,
              0x09823B6E, 0x130476DC, 0x2608EDB8, 0x4C11DB70);
    EightBits(0x20000000, 0x40000000, 0x80000000, 0x04C11DB7, 0x09823B6E,
              0x130476DC, 0x2608EDB8, 0x4C11DB70, 0x9823B6E0);
    EightBits(0x40000000, 0x80000000, 0x04C11DB7, 0x09823B6E, 0x130476DC,
              0x2608EDB8, 0x4C11DB70, 0x9823B6E0, 0x34867077);
    EightBits(0x80000000, 0x04C11DB7, 0x09823B6E, 0x130476DC, 0x2608EDB8,
              0x4C11DB70, 0x9823B6E0, 0x34867077, 0x690CE0EE);
  }

  // c when the low bit of b is set, else 0.
  function Part(b: bv8, c: bv32): bv32 {
    (0 - ((b & 1) as bv32)) & c
  }

  lemma PartCases(b: bv8, c: bv32)
    ensures b & 1 == 0 ==> Part(b, c) == 0
    ensures b & 1 != 0 ==> Part(b, c) == c
  {
  }

  // The table is linear in its index; one case per row.
  lemma TableSum(i: bv8)
    ensures Table(i) == Xor(Part(i >> 0, 0x04C11DB7), Xor(Part(i >> 1, 0x09823B6E), Xor(Part(i >> 2, 0x130476DC),
                        Xor(Part(i >> 3, 0x2608EDB8), Xor(Part(i >> 4, 0x4C11DB70), Xor(Part(i >> 5, 0x9823B6E0),
                        Xor(Part(i >> 6, 0x34867077), Part(i >> 7, 0x690CE0EE))))))))
  {
    if i >> 4 == 0 { return; }
    if i >> 4 == 1 { return; }
    if i >> 4 == 2 { return; }
    if i >> 4 == 3 { return; }
    if i >> 4 == 4 { return; }
    if i >> 4 == 5 { return; }
    if i >> 4 == 6 { return; }
    if i >> 4 == 7 { return; }
    if i >> 4 == 8 { return; }
    if i >> 4 == 9 { return; }
    if i >> 4 == 10 { return; }
    if i >> 4 == 11 { return; }
    if i >> 4 == 12 { return; }
    if i >> 4 == 13 { return; }
    if i >> 4 == 14 { return; }
  }

  // So is the byte it is indexed by.
  lemma LiftSum(i: bv8)
    ensures Lift(i) == Xor(Lift(i & 0x01), Xor(Lift(i & 0x02), Xor(Lift(i & 0x04),
                       Xor(Lift(i & 0x08), Xor(Lift(i & 0x10), Xor(Lift(i & 0x20),
                       Xor(Lift(i & 0x40), Lift(i & 0x80))))))))
  {
  }

  // Eight bit-steps of one bit of i.
  lemma PartBits(b: bv8, p: bv8, c: bv32)
    requires b & 1 == 0 ==> Lift(p) == 0
    requires b & 1 != 0 ==> Bits(Lift(p), 8) == c
    ensures Part(b, c) == Bits(Lift(p), 8)
  {
    hide Part, Bits;
    PartCases(b, c);
    SingleBits();
  }

  lemma SingleLift(i: bv8)
    ensures if (i >> 0) & 1 == 0 then Lift(i & 0x01) == 0 else Lift(i & 0x01) == 0x01000000
    ensures if (i >> 1) & 1 == 0 then Lift(i & 0x02) == 0 else Lift(i & 0x02) == 0x02000000
    ensures if (i >> 2) & 1 == 0 then Lift(i & 0x04) == 0 else Lift(i & 0x04) == 0x04000000
    ensures if (i >> 3) & 1 == 0 then Lift(i & 0x08) == 0 else Lift(i & 0x08) == 0x08000000
    ensures if (i >> 4) & 1 == 0 then Lift(i & 0x10) == 0 else Lift(i & 0x10) == 0x10000000
    ensures if (i >> 5) & 1 == 0 then Lift(i & 0x20) == 0 else Lift(i & 0x20) == 0x20000000
    ensures if (i >> 6) & 1 == 0 then Lift(i & 0x40) == 0 else Lift(i & 0x40) == 0x40000000
    ensures if (i >> 7) & 1 == 0 then Lift(i & 0x80) == 0 else Lift(i & 0x80) == 0x80000000
  {
  }

  // Each table entry is eight bit-steps of its index in the register's top byte.
  lemma Entry(i: bv8)
    ensures Table(i) == Bits(Lift(i), 8)
  {
    hide Table, Bits, Lift, Part, Xor;
    TableSum(i);
    LiftSum(i);
    SingleLift(i);
    SingleBits();
    PartBits(i >> 0, i & 0x01, 0x04C11DB7);
    PartBits(i >> 1, i & 0x02, 0x09823B6E);
    PartBits(i >> 2, i & 0x04, 0x130476DC);
    PartBits(i >> 3, i & 0x08, 0x2608EDB8);
    PartBits(i >> 4, i & 0x10, 0x4C11DB70);
    PartBits(i >> 5, i & 0x20, 0x9823B6E0);
    PartBits(i >> 6, i & 0x40, 0x34867077);
    PartBits(i >> 7, i & 0x80, 0x690CE0EE);
    var s6 := Xor(Lift(i & 0x40), Lift(i & 0x80));
    var s5 := Xor(Lift(i & 0x20), s6);
    var s4 := Xor(Lift(i & 0x10), s5);
    var s3 := Xor(Lift(i & 0x08), s4);
    var s2 := Xor(Lift(i & 0x04), s3);
    var s1 := Xor(Lift(i & 0x02), s2);
    BitsLinear(Lift(i & 0x40), Lift(i & 0x80), 8);
    BitsLinear(Lift(i & 0x20), s6, 8);
    BitsLinear(Lift(i & 0x10), s5, 8);
    BitsLinear(Lift(i & 0x08), s4, 8);
    BitsLinear(Lift(i & 0x04), s3, 8);
    BitsLinear(Lift(i & 0x02), s2, 8);
    BitsLinear(Lift(i & 0x01), s1, 8);
  }

  // The fast form computes the same register as the bit-serial form.
  lemma TableStepIsStep(c: bv32, b: bv8)
    ensures TableStep(c, b) == Step(c, b)
  {
    hide Table, Bits, Xor, Lift;
    var i := ((c >> 24) as bv8) ^ b;
    var lo := c & 0x00FF_FFFF;
    SplitRegister(c, b);
    BitsLinear(Lift(i), lo, 8);
    Entry(i);
    LowBits(lo);
    XorCommutes(Bits(Lift(i), 8), lo << 8);
    KeepLow(c);
  }

  lemma SplitRegister(c: bv32, b: bv8)
    ensures Xor(c, Lift(b)) == Xor(Lift(((c >> 24) as bv8) ^ b), c & 0x00FF_FFFF)
  {
    assert c ^ ((b as bv32) << 24) == (((((c >> 24) as bv8) ^ b) as bv32) << 24) ^ (c & 0x00FF_FFFF);
  }

  lemma KeepLow(c: bv32)
    ensures (c & 0x00FF_FFFF) << 8 == c << 8
  {
  }

  // With the top byte clear, eight bit-steps only shift.
  lemma LowBits(lo: bv32)
    requires lo & (0xFFFFFFFF ^ 0x00FF_FFFF) == 0
    ensures Bits(lo, 8) == lo << 8
  {
    var d1 := Dbl(lo);
    var d2 := Dbl(d1);
    var d3 := Dbl(d2);
    var d4 := Dbl(d3);
    var d5 := Dbl(d4);
    var d6 := Dbl(d5);
    var d7 := Dbl(d6);
    hide Bits, Top, Dbl, AddPoly;
    TopsClear(lo);
    EightBits(lo, d1, d2, d3, d4, d5, d6, d7, Dbl(d7));
    EightShifts(lo);
  }

  lemma TopsClear(lo: bv32)
    requires lo & (0xFFFFFFFF ^ 0x00FF_FFFF) == 0
    ensures !Top(lo) && !Top(Dbl(lo)) && !Top(Dbl(Dbl(lo))) && !Top(Dbl(Dbl(Dbl(lo))))
    ensures !Top(Dbl(Dbl(Dbl(Dbl(lo))))) && !Top(Dbl(Dbl(Dbl(Dbl(Dbl(lo))))))
    ensures !Top(Dbl(Dbl(Dbl(Dbl(Dbl(Dbl(lo))))))) && !Top(Dbl(Dbl(Dbl(Dbl(Dbl(Dbl(Dbl(lo))))))))
  {
  }

  lemma EightShifts(c: bv32)
    ensures Dbl(Dbl(Dbl(Dbl(Dbl(Dbl(Dbl(Dbl(c)))))))) == c << 8
  {
  }

  // ---- Nothing is lost in a step ----

  lemma BitInjective(x: bv32, y: bv32)
    requires Bit(x) == Bit(y)
    ensures x == y
  {
    hide Top, Dbl, AddPoly;
    ConstantTerm(x, y);
    ConstantTerm(y, x);
    if Top(x) && Top(y) {
      SamePoly(Dbl(x), Dbl(y));
    }
    SameDbl(x, y);
  }

  // The polynomial's constant term lands in the bit that the shift leaves clear.
  lemma ConstantTerm(x: bv32, y: bv32)
    ensures Dbl(x) != AddPoly(Dbl(y))
  {
  }

  lemma SamePoly(x: bv32, y: bv32)
    requires AddPoly(x) == AddPoly(y)
    ensures x == y
  {
  }

  lemma SameDbl(x: bv32, y: bv32)
    requires Dbl(x) == Dbl(y) && Top(x) == Top(y)
    ensures x == y
  {
  }

  lemma {:induction false} BitsInjective(x: bv32, y: bv32, n: nat)
    requires Bits(x, n) == Bits(y, n)
    ensures x == y
  {
    hide Bit;
    if n != 0 {
      BitInjective(Bits(x, n - 1), Bits(y, n - 1));
      BitsInjective(x, y, n - 1);
    }
  }

  // Equal outcomes of one step: the registers agree exactly when the bytes do.
  lemma StepInjective(c: bv32, d: bv32, a: bv8, b: bv8)
    requires Step(c, a) == Step(d, b)
    ensures c == d <==> a == b
  {
    hide Bits, Xor, Lift;
    BitsInjective(Xor(c, Lift(a)), Xor(d, Lift(b)), 8);
    if c == d {
      SameRegister(c, a, b);
    } else if a == b {
      SameByte(c, d, b);
    }
  }

  lemma SameRegister(c: bv32, a: bv8, b: bv8)
    requires Xor(c, Lift(a)) == Xor(c, Lift(b))
    ensures a == b
  {
  }

  lemma SameByte(c: bv32, d: bv32, b: bv8)
    requires Xor(c, Lift(b)) == Xor(d, Lift(b))
    ensures c == d
  {
  }

  // ---- Two neighbouring bytes ----

  function LowPart(c: bv32): bv32 {
    c & 0x00FF_FFFF
  }

  function Index(c: bv32, b: bv8): bv8 {
    ((c >> 24) as bv8) ^ b
  }

  // What a byte leaves below the register's top byte tells which byte it was.
  lemma LowPartInjective(i: bv8, j: bv8)
    requires LowPart(Table(i)) == LowPart(Table(j))
    ensures i == j
  {
    TableSum(i);
    TableSum(j);
    hide Table;
  }

  lemma SameLow(x: bv32, y: bv32, a: bv8, b: bv8)
    requires Xor(x, Lift(a)) == Xor(y, Lift(b))
    ensures LowPart(x) == LowPart(y)
  {
  }

  lemma SameIndex(c: bv32, a: bv8, b: bv8)
    requires Index(c, a) == Index(c, b)
    ensures a == b
  {
  }

  lemma SameShift(s: bv32, t: bv32, u: bv32)
    requires LowPart(Xor(s, t)) == LowPart(Xor(s, u))
    ensures LowPart(t) == LowPart(u)
  {
  }

  lemma StepByIndex(c: bv32, b: bv8)
    ensures Step(c, b) == Xor(c << 8, Table(Index(c, b)))
  {
    TableStepIsStep(c, b);
    hide Step, Table, Xor;
  }

  lemma StepLowInjective(c: bv32, a: bv8, b: bv8)
    requires LowPart(Step(c, a)) == LowPart(Step(c, b))
    ensures a == b
  {
    hide Step, Table, Xor, Index, LowPart;
    StepByIndex(c, a);
    StepByIndex(c, b);
    SameShift(c << 8, Table(Index(c, a)), Table(Index(c, b)));
    LowPartInjective(Index(c, a), Index(c, b));
    SameIndex(c, a, b);
  }

  lemma StepsMeet(x: bv32, y: bv32, a: bv8, b: bv8)
    requires Step(x, a) == Step(y, b)
    ensures LowPart(x) == LowPart(y)
  {
    hide Bits, Xor, Lift, LowPart;
    BitsInjective(Xor(x, Lift(a)), Xor(y, Lift(b)), 8);
    SameLow(x, y, a, b);
  }

  // Different pairs of bytes take a register to different registers.
  lemma TwoSteps(c: bv32, a: bv8, b: bv8, a': bv8, b': bv8)
    requires Step(Step(c, a), b) == Step(Step(c, a'), b')
    ensures a == a' && b == b'
  {
    hide Step, LowPart;
    StepsMeet(Step(c, a), Step(c, a'), b, b');
    StepLowInjective(c, a, a');
    StepInjective(Step(c, a), Step(c, a'), b, b');
  }

  // ---- A change that the register forgets ----

  lemma Shifted(x: bv32, y: bv32, a: bv8, b: bv8, lo: bv32)
    requires Xor(y, Lift(b)) == Xor(Xor(x, Lift(a)), lo) && lo & (0xFFFFFFFF ^ 0x00FF_FFFF) == 0
    ensures Step(y, b) == Xor(Step(x, a), lo << 8)
  {
    hide Bits, Xor, Lift;
    BitsLinear(Xor(x, Lift(a)), lo, 8);
    LowBits(lo);
  }

  lemma LastBitAltered(c: bv32, a: bv8)
    ensures Step(c, a ^ 0x01) == Xor(Step(c, a), 0x04C11DB7)
  {
    LiftAltered(c, a);
    SingleBits();
    hide Bits, Xor, Lift;
    BitsLinear(Xor(c, Lift(a)), 0x01000000, 8);
  }

  lemma LiftAltered(c: bv32, a: bv8)
    ensures Xor(c, Lift(a ^ 0x01)) == Xor(Xor(c, Lift(a)), 0x01000000)
  {
  }

  // A change whose first byte cancels the top of what is left of an earlier one.
  lemma Cancel(x: bv32, old_: bv32, b: bv8, e: bv8, lo: bv32)
    requires old_ ^ ((e as bv32) << 24) == lo
    ensures Xor(Xor(x, old_), Lift(b ^ e)) == Xor(Xor(x, Lift(b)), lo)
  {
  }

  // Five neighbouring bytes altered by the polynomial itself: the register is the same.
  lemma PolynomialUnnoticed(c: bv32, a: bv8, b: bv8, d: bv8, e: bv8, g: bv8)
    ensures Step(Step(Step(Step(Step(c, a ^ 0x01), b ^ 0x04), d ^ 0xC1), e ^ 0x1D), g ^ 0xB7) ==
            Step(Step(Step(Step(Step(c, a), b), d), e), g)
  {
    var x1 := Step(c, a);
    var x2 := Step(x1, b);
    var x3 := Step(x2, d);
    var x4 := Step(x3, e);
    LastBitAltered(c, a);
    Cancel(x1, 0x04C11DB7, b, 0x04, 0x00C11DB7);
    Shifted(x1, Xor(x1, 0x04C11DB7), b, b ^ 0x04, 0x00C11DB7);
    Cancel(x2, 0xC11DB700, d, 0xC1, 0x001DB700);
    Shifted(x2, Xor(x2, 0xC11DB700), d, d ^ 0xC1, 0x001DB700);
    Cancel(x3, 0x1DB70000, e, 0x1D, 0x00B70000);
    Shifted(x3, Xor(x3, 0x1DB70000), e, e ^ 0x1D, 0x00B70000);
    Cancel(x4, 0xB7000000, g, 0xB7, 0);
    Shifted(x4, Xor(x4, 0xB7000000), g, g ^ 0xB7, 0);
    XorZero(Step(x4, g));
    hide Step, Xor;
  }

  lemma XorZero(x: bv32)
    ensures Xor(x, 0) == x
  {
  }
}
