// Small numbers and words as wire bytes.
module Bytes {

  // A byte from its bits, lowest first.
  function FromBits(b0: bool, b1: bool, b2: bool, b3: bool, b4: bool, b5: bool, b6: bool, b7: bool): bv8 {
    Flag(b0, 0x01) | Flag(b1, 0x02) | Flag(b2, 0x04) | Flag(b3, 0x08) |
    Flag(b4, 0x10) | Flag(b5, 0x20) | Flag(b6, 0x40) | Flag(b7, 0x80)
  }

  function Flag(on: bool, bit: bv8): bv8 {
    if on then bit else 0
  }

  predicate Has(b: bv8, bit: bv8) {
    b & bit != 0
  }

  function Weight(on: bool, w: nat): (n: nat)
    ensures n <= w
  {
    if on then w else 0
  }

  function ToByte(n: nat): bv8
    requires n < 256
  {
    FromBits(n % 2 == 1, n / 2 % 2 == 1, n / 4 % 2 == 1, n / 8 % 2 == 1,
             n / 16 % 2 == 1, n / 32 % 2 == 1, n / 64 % 2 == 1, n / 128 % 2 == 1)
  }

  function ToNat(b: bv8): (n: nat)
    ensures n < 256
  {
    Weight(Has(b, 0x01), 1) + Weight(Has(b, 0x02), 2) + Weight(Has(b, 0x04), 4) + Weight(Has(b, 0x08), 8) +
    Weight(Has(b, 0x10), 16) + Weight(Has(b, 0x20), 32) + Weight(Has(b, 0x40), 64) + Weight(Has(b, 0x80), 128)
  }

  lemma BitsOf(b0: bool, b1: bool, b2: bool, b3: bool, b4: bool, b5: bool, b6: bool, b7: bool)
    ensures var b := FromBits(b0, b1, b2, b3, b4, b5, b6, b7);
            && Has(b, 0x01) == b0 && Has(b, 0x02) == b1 && Has(b, 0x04) == b2 && Has(b, 0x08) == b3
            && Has(b, 0x10) == b4 && Has(b, 0x20) == b5 && Has(b, 0x40) == b6 && Has(b, 0x80) == b7
  {
  }

  // Each bit adds its weight to what the lower bits make.
  lemma Digit(n: nat, k: nat)
    requires k in {1, 2, 4, 8, 16, 32, 64, 128}
    ensures n % (2 * k) == n % k + Weight(n / k % 2 == 1, k)
  {
    var q, r := n / k, n % k;
    assert n == k * q + r;
    assert q == 2 * (q / 2) + q % 2;
    Scaled(k, q);
    Remainder(n, 2 * k, q / 2, k * (q % 2) + r);
  }

  lemma Scaled(k: nat, q: nat)
    ensures k * q == (q / 2) * (2 * k) + k * (q % 2)
    ensures k * (q % 2) == Weight(q % 2 == 1, k)
  {
  }

  lemma Remainder(n: nat, d: nat, q: nat, r: nat)
    requires d > 0 && r < d && n == q * d + r
    ensures n % d == r
  {
    var e := n / d - q;
    assert e * d == r - n % d;
    assert e == 0;
  }

  lemma NatOfBits(b0: bool, b1: bool, b2: bool, b3: bool, b4: bool, b5: bool, b6: bool, b7: bool)
    ensures ToNat(FromBits(b0, b1, b2, b3, b4, b5, b6, b7)) ==
            Weight(b0, 1) + Weight(b1, 2) + Weight(b2, 4) + Weight(b3, 8) +
            Weight(b4, 16) + Weight(b5, 32) + Weight(b6, 64) + Weight(b7, 128)
  {
    BitsOf(b0, b1, b2, b3, b4, b5, b6, b7);
    hide FromBits, Has, Weight;
  }

  lemma LowDigits(n: nat)
    ensures n % 16 == Weight(n % 2 == 1, 1) + Weight(n / 2 % 2 == 1, 2)
                      + Weight(n / 4 % 2 == 1, 4) + Weight(n / 8 % 2 == 1, 8)
  {
    hide Weight;
    Digit(n, 1);
    Digit(n, 2);
    Digit(n, 4);
    Digit(n, 8);
  }

  lemma HighDigits(n: nat)
    requires n < 256
    ensures n == n % 16 + Weight(n / 16 % 2 == 1, 16) + Weight(n / 32 % 2 == 1, 32)
                 + Weight(n / 64 % 2 == 1, 64) + Weight(n / 128 % 2 == 1, 128)
  {
    hide Weight;
    Digit(n, 16);
    Digit(n, 32);
    Digit(n, 64);
    Digit(n, 128);
  }

  lemma ToNatToByte(n: nat)
    requires n < 256
    ensures ToNat(ToByte(n)) == n
  {
    hide FromBits, ToNat, Weight;
    NatOfBits(n % 2 == 1, n / 2 % 2 == 1, n / 4 % 2 == 1, n / 8 % 2 == 1,
              n / 16 % 2 == 1, n / 32 % 2 == 1, n / 64 % 2 == 1, n / 128 % 2 == 1);
    LowDigits(n);
    HighDigits(n);
  }

  // A 16-bit length from its two wire bytes.
  function Length16(low: bv8, high: bv8): nat {
    ToNat(low) + 256 * ToNat(high)
  }

  function LowByte(n: nat): bv8 {
    ToByte(n % 256)
  }

  function HighByte(n: nat): bv8
    requires n < 0x1_0000
  {
    ToByte(n / 256)
  }

  lemma LengthRoundTrip(n: nat)
    requires n < 0x1_0000
    ensures Length16(LowByte(n), HighByte(n)) == n
    ensures n < 256 ==> ToNat(LowByte(n)) == n
  {
    hide ToByte, ToNat;
    ToNatToByte(n % 256);
    ToNatToByte(n / 256);
  }

  // A 16-bit word from and to its two wire bytes.
  function Low16(w: bv16): bv8 {
    (w & 0xFF) as bv8
  }

  function High16(w: bv16): bv8 {
    ((w >> 8) & 0xFF) as bv8
  }

  function FromLow(low: bv8): bv16 {
    low as bv16
  }

  function WithHigh(w: bv16, high: bv8): bv16 {
    w | ((high as bv16) << 8)
  }

  lemma WordRoundTrip(w: bv16)
    ensures WithHigh(FromLow(Low16(w)), High16(w)) == w
  {
  }

  // The four bytes of a 32-bit word, least significant first.
  function Bytes32(w: bv32): (s: seq<bv8>)
    ensures |s| == 4
  {
    [(w & 0xFF) as bv8, ((w >> 8) & 0xFF) as bv8, ((w >> 16) & 0xFF) as bv8, ((w >> 24) & 0xFF) as bv8]
  }
}
