// The Galois shift register behind the xTP error-correcting code.
module Lfsr {

  // XOR as a named operation, so that proofs about sequences can hide its bits.
  function Xor(x: bv8, y: bv8): bv8 {
    x ^ y
  }

  lemma XorGroup(x: bv8, y: bv8, z: bv8)
    ensures Xor(x, y) == Xor(y, x)
    ensures Xor(Xor(x, y), z) == Xor(x, Xor(y, z))
    ensures Xor(x, 0) == x
    ensures Xor(x, y) == 0 <==> x == y
    ensures Xor(x, Xor(x, y)) == y
    ensures Xor(x, y) == x <==> y == 0
  {
  }

  // One register step: shift right, fold the tap mask in when a bit falls out.
  function Lf(x: bv8): bv8 {
    (x >> 1) ^ ((0 - (x & 1)) & 0x8E)
  }

  // A step divides by x modulo the documented polynomial x^8 + x^4 + x^3 + x^2 + 1: multiplying
  // by x again gives the byte back.
  lemma LfDividesByX(x: bv8)
    ensures var y := Lf(x); (y << 1) ^ (if y & 0x80 != 0 then 0x1D else 0) == x
  {
  }

  // k register steps.
  function Rot(x: bv8, k: nat): bv8
    decreases k
  {
    if k == 0 then x else Rot(Lf(x), k - 1)
  }

  lemma LfInjective(x: bv8, y: bv8)
    requires Lf(x) == Lf(y)
    ensures x == y
  {
  }

  lemma {:induction false} RotAdd(x: bv8, j: nat, k: nat)
    ensures Rot(x, j + k) == Rot(Rot(x, j), k)
    decreases j
  {
    if j != 0 {
      RotAdd(Lf(x), j - 1, k);
    }
  }

  lemma Rot1(x: bv8)
    ensures Rot(x, 1) == Lf(x)
  {
    assert Rot(Lf(x), 0) == Lf(x);
  }

  lemma RotSnoc(x: bv8, k: nat)
    ensures Rot(x, k + 1) == Lf(Rot(x, k))
  {
    RotAdd(x, k, 1);
    Rot1(Rot(x, k));
  }

  lemma LfXor(x: bv8, y: bv8)
    ensures Lf(Xor(x, y)) == Xor(Lf(x), Lf(y))
  {
  }

  // The register is linear.
  lemma {:induction false} RotXor(x: bv8, y: bv8, k: nat)
    ensures Rot(Xor(x, y), k) == Xor(Rot(x, k), Rot(y, k))
    decreases k
  {
    hide Xor, Lf;
    if k != 0 {
      LfXor(x, y);
      RotXor(Lf(x), Lf(y), k - 1);
    }
  }

  lemma {:induction false} RotZero(k: nat)
    ensures Rot(0, k) == 0
    decreases k
  {
    if k != 0 {
      RotZero(k - 1);
    }
  }

  lemma {:induction false} RotInjective(x: bv8, y: bv8, k: nat)
    requires Rot(x, k) == Rot(y, k)
    ensures x == y
    decreases k
  {
    if k != 0 {
      RotInjective(Lf(x), Lf(y), k - 1);
      LfInjective(x, y);
    }
  }

  lemma RotNonzero(x: bv8, k: nat)
    requires x != 0
    ensures Rot(x, k) != 0
  {
    RotZero(k);
    if Rot(x, k) == 0 {
      RotInjective(x, 0, k);
    }
  }

  // ---- Powers of the register step as bit matrices ----

  // The linear map sending bit i of x to c_i.
  function Bits(x: bv8, c0: bv8, c1: bv8, c2: bv8, c3: bv8, c4: bv8, c5: bv8, c6: bv8, c7: bv8): bv8 {
    ((0 - (x & 1)) & c0) ^ ((0 - ((x >> 1) & 1)) & c1) ^ ((0 - ((x >> 2) & 1)) & c2) ^ ((0 - ((x >> 3) & 1)) & c3) ^
    ((0 - ((x >> 4) & 1)) & c4) ^ ((0 - ((x >> 5) & 1)) & c5) ^ ((0 - ((x >> 6) & 1)) & c6) ^ ((0 - (x >> 7)) & c7)
  }

  function P2(x: bv8): bv8 { Bits(x, 0x47, 0x8E, 0x01, 0x02, 0x04, 0x08, 0x10, 0x20) }
  function P4(x: bv8): bv8 { Bits(x, 0xD8, 0xAD, 0x47, 0x8E, 0x01, 0x02, 0x04, 0x08) }
  function P8(x: bv8): bv8 { Bits(x, 0x83, 0x1B, 0x36, 0x6C, 0xD8, 0xAD, 0x47, 0x8E) }
  function P16(x: bv8): bv8 { Bits(x, 0x16, 0x2C, 0x58, 0xB0, 0x7D, 0xFA, 0xE9, 0xCF) }
  function P32(x: bv8): bv8 { Bits(x, 0x09, 0x12, 0x24, 0x48, 0x90, 0x3D, 0x7A, 0xF4) }
  function P64(x: bv8): bv8 { Bits(x, 0x41, 0x82, 0x19, 0x32, 0x64, 0xC8, 0x8D, 0x07) }
  function P128(x: bv8): bv8 { Bits(x, 0xCC, 0x85, 0x17, 0x2E, 0x5C, 0xB8, 0x6D, 0xDA) }

  lemma IsP2(x: bv8)
    ensures Rot(x, 2) == P2(x)
  {
    assert Rot(Lf(Lf(x)), 0) == Lf(Lf(x));
  }

  lemma IsP4(x: bv8)
    ensures Rot(x, 4) == P4(x)
  {
    hide Rot;
    RotAdd(x, 2, 2);
    IsP2(x);
    IsP2(P2(x));
  }

  lemma IsP8(x: bv8)
    ensures Rot(x, 8) == P8(x)
  {
    hide Rot;
    RotAdd(x, 4, 4);
    IsP4(x);
    IsP4(P4(x));
  }

  lemma IsP16(x: bv8)
    ensures Rot(x, 16) == P16(x)
  {
    hide Rot;
    RotAdd(x, 8, 8);
    IsP8(x);
    IsP8(P8(x));
  }

  lemma IsP32(x: bv8)
    ensures Rot(x, 32) == P32(x)
  {
    hide Rot;
    RotAdd(x, 16, 16);
    IsP16(x);
    IsP16(P16(x));
  }

  lemma IsP64(x: bv8)
    ensures Rot(x, 64) == P64(x)
  {
    hide Rot;
    RotAdd(x, 32, 32);
    IsP32(x);
    IsP32(P32(x));
  }

  lemma IsP128(x: bv8)
    ensures Rot(x, 128) == P128(x)
  {
    hide Rot;
    RotAdd(x, 64, 64);
    IsP64(x);
    IsP64(P64(x));
  }

  // 255 = 3 * 5 * 17: a proper divisor of 255 divides 15, 51 or 85, so it is enough
  // that none of these three is a period of a non-zero register.
  lemma Rot15(x: bv8)
    requires x != 0
    ensures Rot(x, 15) != x
  {
    hide Rot;
    RotAdd(x, 8, 7);
    RotAdd(P8(x), 4, 3);
    RotAdd(P4(P8(x)), 2, 1);
    IsP8(x);
    IsP4(P8(x));
    IsP2(P4(P8(x)));
    Rot1(P2(P4(P8(x))));
  }

  lemma Rot51(x: bv8)
    requires x != 0
    ensures Rot(x, 51) != x
  {
    hide Rot;
    RotAdd(x, 32, 19);
    RotAdd(P32(x), 16, 3);
    RotAdd(P16(P32(x)), 2, 1);
    IsP32(x);
    IsP16(P32(x));
    IsP2(P16(P32(x)));
    Rot1(P2(P16(P32(x))));
  }

  lemma Rot85(x: bv8)
    requires x != 0
    ensures Rot(x, 85) != x
  {
    hide Rot;
    RotAdd(x, 64, 21);
    RotAdd(P64(x), 16, 5);
    RotAdd(P16(P64(x)), 4, 1);
    IsP64(x);
    IsP16(P64(x));
    IsP4(P16(P64(x)));
    Rot1(P4(P16(P64(x))));
  }

  lemma PowersCompose(x: bv8)
    ensures Lf(P2(P4(P8(P16(P32(P64(P128(x)))))))) == x
  {
  }

  // The documented period of the register.
  lemma Rot255(x: bv8)
    ensures Rot(x, 255) == x
  {
    hide *;
    PowersCompose(x);
    var y := P64(P128(x));
    RotAdd(x, 128, 127);
    RotAdd(P128(x), 64, 63);
    IsP128(x);
    IsP64(P128(x));
    assert Rot(x, 255) == Rot(y, 63);
    RotAdd(y, 32, 31);
    IsP32(y);
    RotAdd(P32(y), 16, 15);
    IsP16(P32(y));
    var z := P16(P32(y));
    assert Rot(x, 255) == Rot(z, 15);
    RotAdd(z, 8, 7);
    IsP8(z);
    RotAdd(P8(z), 4, 3);
    IsP4(P8(z));
    RotAdd(P4(P8(z)), 2, 1);
    IsP2(P4(P8(z)));
    Rot1(P2(P4(P8(z))));
  }

  // ---- The period is exactly 255 ----

  ghost predicate Period(x: bv8, k: nat) {
    Rot(x, k) == x
  }

  lemma {:induction false} PeriodMultiple(x: bv8, k: nat, m: nat)
    requires Period(x, k)
    ensures Period(x, m * k)
    decreases m
  {
    if m != 0 {
      PeriodMultiple(x, k, m - 1);
      assert m * k == k + (m - 1) * k;
      RotAdd(x, k, (m - 1) * k);
    }
  }

  // Euclid on periods: two periods have a common divisor that is itself a period.
  lemma {:induction false} PeriodEuclid(x: bv8, j: nat, k: nat) returns (g: nat, a: nat, b: nat)
    requires j > 0 && k > 0 && Period(x, j) && Period(x, k)
    ensures g > 0 && Period(x, g) && j == a * g && k == b * g
    decreases j + k
  {
    if j == k {
      return j, 1, 1;
    } else if j < k {
      RotAdd(x, j, k - j);
      g, a, b := PeriodEuclid(x, j, k - j);
      b := a + b;
    } else {
      RotAdd(x, k, j - k);
      g, a, b := PeriodEuclid(x, j - k, k);
      a := a + b;
    }
  }

  lemma DivisorsOf255(g: nat, b: nat)
    requires b * g == 255 && 0 < g < 255
    ensures exists m: nat :: m * g == 15 || m * g == 51 || m * g == 85
  {
    if g <= 15 {
      SmallDivisor(g, b);
      assert g == 1 || g == 3 || g == 5 || g == 15;
      assert if g == 1 then 15 * g == 15 else if g == 3 then 5 * g == 15 else if g == 5 then 3 * g == 15 else 1 * g == 15;
    } else {
      MulMonotone(16, g, b);
      SmallDivisor(b, g);
      assert if b == 3 then 1 * g == 85 else if b == 5 then 1 * g == 51 else b == 15 && 3 * g == 51;
    }
  }

  lemma MulMonotone(n: nat, g: nat, b: nat)
    ensures b >= n ==> b * g >= n * g
  {
  }

  lemma SmallDivisor(g: nat, b: nat)
    requires b * g == 255 && 0 < g <= 15
    ensures g == 1 || g == 3 || g == 5 || g == 15
  {
    assert g == 2 ==> b * 2 == 255;
    assert g == 4 ==> b * 4 == 255;
    assert g == 6 ==> b * 6 == 255;
    assert g == 7 ==> b * 7 == 255;
    assert g == 8 ==> b * 8 == 255;
    assert g == 9 ==> b * 9 == 255;
    assert g == 10 ==> b * 10 == 255;
    assert g == 11 ==> b * 11 == 255;
    assert g == 12 ==> b * 12 == 255;
    assert g == 13 ==> b * 13 == 255;
    assert g == 14 ==> b * 14 == 255;
  }

  // No non-zero register value recurs in fewer than 255 steps.
  lemma NoShortPeriod(x: bv8, k: nat)
    requires x != 0 && 0 < k < 255
    ensures Rot(x, k) != x
  {
    if Period(x, k) {
      Rot255(x);
      var g, a, b := PeriodEuclid(x, k, 255);
      MulMonotone(1, g, a);
      DivisorsOf255(g, b);
      var m: nat :| m * g == 15 || m * g == 51 || m * g == 85;
      PeriodMultiple(x, g, m);
      Rot15(x);
      Rot51(x);
      Rot85(x);
    }
  }

  // Different step counts below the period give different registers.
  lemma RotDistinct(x: bv8, j: nat, k: nat)
    requires x != 0 && j < k < 255
    ensures Rot(x, j) != Rot(x, k)
  {
    RotAdd(x, j, k - j);
    RotNonzero(x, j);
    NoShortPeriod(Rot(x, j), k - j);
  }

  // ---- One orbit: every non-zero value reaches every other within 254 steps ----

  // The values visited by x in its first n steps, as numbers.
  ghost function Orbit(x: bv8, n: nat): set<int>
    requires x != 0 && n <= 255
  {
    set k: nat | k < n :: Rot(x, k) as int
  }

  lemma {:induction false} OrbitSize(x: bv8, n: nat)
    requires x != 0 && n <= 255
    ensures |Orbit(x, n)| == n
    decreases n
  {
    if n == 0 {
      assert Orbit(x, 0) == {};
    } else {
      OrbitSize(x, n - 1);
      var v := Rot(x, n - 1) as int;
      assert v !in Orbit(x, n - 1) by {
        if v in Orbit(x, n - 1) {
          var k: nat :| k < n - 1 && Rot(x, k) as int == v;
          ByteAsInt(Rot(x, k), Rot(x, n - 1));
          RotDistinct(x, k, n - 1);
        }
      }
      assert Orbit(x, n) == Orbit(x, n - 1) + {v};
    }
  }

  lemma ByteAsInt(x: bv8, y: bv8)
    requires x as int == y as int
    ensures x == y
  {
    assert (x as int) as bv8 == x;
    assert (y as int) as bv8 == y;
  }

  lemma {:induction false} SubsetSize<T>(s: set<T>, t: set<T>)
    requires s <= t
    ensures |s| <= |t|
  {
    if |s| != 0 {
      var e :| e in s;
      SubsetSize(s - {e}, t - {e});
    }
  }

  // The numbers 1..n.
  ghost function UpTo(n: nat): set<int> {
    if n == 0 then {} else UpTo(n - 1) + {n}
  }

  lemma {:induction false} UpToSize(n: nat)
    ensures |UpTo(n)| == n
    ensures forall v :: v in UpTo(n) <==> 1 <= v <= n
  {
    if n != 0 {
      UpToSize(n - 1);
    }
  }

  lemma Reachable(x: bv8, y: bv8)
    requires x != 0 && y != 0
    ensures exists k: nat :: k < 255 && Rot(x, k) == y
  {
    hide UpTo, Rot;
    var orbit, all := Orbit(x, 255), UpTo(255);
    UpToSize(255);
    OrbitSize(x, 255);
    NonzeroAsInt(y);
    if y as int !in orbit {
      forall v | v in orbit ensures v in all - {y as int} {
        var k: nat :| k < 255 && Rot(x, k) as int == v;
        RotNonzero(x, k);
        NonzeroAsInt(Rot(x, k));
      }
      SubsetSize(orbit, all - {y as int});
    }
    var k: nat :| k < 255 && Rot(x, k) as int == y as int;
    ByteAsInt(Rot(x, k), y);
  }

  lemma NonzeroAsInt(x: bv8)
    requires x != 0
    ensures 1 <= x as int <= 255
  {
    if x as int == 0 {
      ByteAsInt(x, 0);
    }
  }
}
