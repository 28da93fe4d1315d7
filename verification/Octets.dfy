// Bytes as numbers, and numbers as little-endian bytes.
module Octets {
  type byte = x: int | 0 <= x < 256

  function LittleEndian(n: nat, width: nat): (s: seq<byte>)
    ensures |s| == width
  {
    if width == 0 then [] else [n % 256] + LittleEndian(n / 256, width - 1)
  }

  function FromLittleEndian(s: seq<byte>): nat {
    if |s| == 0 then 0 else s[0] + 256 * FromLittleEndian(s[1..])
  }

  function Pow256(k: nat): (p: nat)
    ensures p > 0
  {
    if k == 0 then 1 else 256 * Pow256(k - 1)
  }

  // Byte i counts the 256^i.
  lemma {:induction false} WordDigit(n: nat, width: nat, i: nat)
    requires i < width
    ensures LittleEndian(n, width)[i] == n / Pow256(i) % 256
    decreases width
  {
    if i > 0 {
      WordDigit(n / 256, width - 1, i - 1);
      DivTwice(n, 256, Pow256(i - 1));
    }
  }

  lemma DivTwice(v: nat, a: nat, b: nat)
    requires a > 0 && b > 0
    ensures a * b > 0 && v / a / b == v / (a * b)
  {
    var q, r := v / a / b, v / a % b;
    assert v / a == q * b + r;
    assert v == a * (q * b + r) + v % a;
    Quotient(v, a, b, q, r);
  }

  lemma Quotient(v: nat, a: nat, b: nat, q: nat, r: nat)
    requires a > 0 && b > 0 && a * b > 0 && r < b && v == a * (q * b + r) + v % a
    ensures v / (a * b) == q
  {
    var d, e := a * b, a * r + v % a;
    assert a * (q * b + r) == q * d + a * r;
    assert a * r <= a * (b - 1);
    assert e < d;
    Unique(v, d, q, e);
  }

  lemma Unique(v: nat, d: nat, q: nat, e: nat)
    requires d > 0 && e < d && v == q * d + e
    ensures v / d == q
  {
    var x := v / d - q;
    assert x * d == e - v % d;
    assert x == 0;
  }

  lemma {:induction false} WordRoundTrip(n: nat, width: nat)
    requires n < Pow256(width)
    ensures FromLittleEndian(LittleEndian(n, width)) == n
    decreases width
  {
    if width > 0 {
      var s := LittleEndian(n, width);
      assert s[1..] == LittleEndian(n / 256, width - 1);
      WordRoundTrip(n / 256, width - 1);
    }
  }

  lemma WordSizes()
    ensures Pow256(4) == 0x1_0000_0000 && Pow256(8) == 0x1_0000_0000_0000_0000
  {
    assert Pow256(2) == 256 * 256 && Pow256(4) == 256 * 256 * Pow256(2);
    assert Pow256(6) == 256 * 256 * Pow256(4) && Pow256(8) == 256 * 256 * Pow256(6);
  }
}
