// nanopb's wire primitives: varints, zigzag, fixed-width words. Bytes are numbers below 256;
// a shift by 7k bits is a multiplication by 128^k.
module PbWire {
  import opened Octets
  import opened Wrappers

  const TWO31: nat := 0x8000_0000
  const TWO32: nat := 0x1_0000_0000
  const TWO63: nat := 0x8000_0000_0000_0000
  const TWO64: nat := 0x1_0000_0000_0000_0000
  const MIN64: int := -0x8000_0000_0000_0000

  function Pow128(k: nat): (p: nat)
    ensures p > 0
  {
    if k == 0 then 1 else 128 * Pow128(k - 1)
  }

  // ---- Encoding ----

  function EncVarint(v: nat): (s: seq<byte>)
    ensures |s| > 0
  {
    if v < 128 then [v] else [v % 128 + 128] + EncVarint(v / 128)
  }

  // The bytes of v with the continuation bit on every one of them.
  function Groups(v: nat): seq<byte> {
    if v == 0 then [] else [v % 128 + 128] + Groups(v / 128)
  }

  // The encoder's loop sets the continuation bit on every byte and clears it on the last.
  method EncodeVarint(value: nat) returns (s: seq<byte>)
    ensures s == EncVarint(value) && (value < TWO64 ==> |s| <= 10)
  {
    TenGroups();
    if value < TWO64 {
      VarintLength(value, 10);
    }
    if value <= 0x7F {
      return [value];
    }
    s := [];
    var v := value;
    assert [] + Groups(v) == Groups(value);
    while v != 0
      invariant s + Groups(v) == Groups(value)
      decreases v
    {
      var b: byte := v % 128 + 128;
      assert s + ([b] + Groups(v / 128)) == s + [b] + Groups(v / 128);
      s := s + [b];
      v := v / 128;
    }
    assert s == Groups(value);
    ClearLast(value);
    s := s[|s| - 1 := s[|s| - 1] - 128];
  }

  lemma {:induction false} ClearLast(v: nat)
    requires v > 0
    ensures var s := Groups(v);
            |s| > 0 && s[|s| - 1] >= 128 && s[|s| - 1 := s[|s| - 1] - 128] == EncVarint(v)
    decreases v
  {
    var s := Groups(v);
    if v < 128 {
      assert Groups(v / 128) == [];
      assert s == [v + 128];
    } else {
      ClearLast(v / 128);
      var t := Groups(v / 128);
      assert s == [v % 128 + 128] + t;
      assert s[|s| - 1 := s[|s| - 1] - 128] == [v % 128 + 128] + t[|t| - 1 := t[|t| - 1] - 128];
    }
  }

  lemma {:induction false} VarintLength(v: nat, k: nat)
    requires k > 0 && v < Pow128(k)
    ensures |EncVarint(v)| <= k
    decreases k
  {
    if v >= 128 {
      assert Pow128(1) == 128 * Pow128(0);
      VarintLength(v / 128, k - 1);
    }
  }

  lemma TenGroups()
    ensures Pow128(9) < TWO64 <= Pow128(10)
    ensures Pow128(9) == TWO63 && Pow128(5) == 8 * TWO32 && Pow128(4) == 0x1000_0000
  {
    assert Pow128(1) == 128 && Pow128(2) == 128 * 128;
    assert Pow128(4) == 128 * 128 * Pow128(2);
    assert Pow128(6) == 128 * 128 * Pow128(4);
    assert Pow128(8) == 128 * 128 * Pow128(6);
    assert Pow128(10) == 128 * 128 * Pow128(8);
  }

  // Of the bytes of a varint exactly the last has its top bit clear.
  predicate EndsOnce(s: seq<byte>) {
    |s| > 0 && s[|s| - 1] < 128 && forall i :: 0 <= i < |s| - 1 ==> s[i] >= 128
  }

  // There are no more bytes than the value needs.
  lemma {:induction false} VarintShape(v: nat)
    ensures var s := EncVarint(v);
            EndsOnce(s) && v < Pow128(|s|) && (|s| > 1 ==> Pow128(|s| - 1) <= v)
    decreases v
  {
    hide Pow128;
    PowZero();
    NextPow(0);
    if v >= 128 {
      var t := EncVarint(v / 128);
      VarintShape(v / 128);
      NextPow(|t|);
      NextPow(|t| - 1);
    }
  }

  // Byte i of a varint holds seven bits of the value from bit 7i on.
  lemma {:induction false} VarintDigit(v: nat, i: nat)
    requires i < |EncVarint(v)|
    ensures EncVarint(v)[i] % 128 == v / Pow128(i) % 128
    decreases v
  {
    hide Pow128;
    PowZero();
    if i > 0 {
      VarintDigit(v / 128, i - 1);
      NextPow(i - 1);
      DivTwice(v, 128, Pow128(i - 1));
    }
  }

  // ---- 64-bit decoding ----

  function Dec64(s: seq<byte>, k: nat, result: nat): (r: Option<(nat, seq<byte>)>)
    ensures r.Some? ==> |r.value.1| < |s|
    decreases |s|
  {
    if k >= 10 || |s| == 0 then None else
    var acc := (result + s[0] % 128 * Pow128(k)) % TWO64;
    if s[0] >= 128 then Dec64(s[1..], k + 1, acc) else Some((acc, s[1..]))
  }

  lemma Regroup(v: nat, p: nat)
    ensures v % 128 * p + v / 128 * (128 * p) == v * p
  {
    assert v == v % 128 + 128 * (v / 128);
    MulDistributes(v % 128, v / 128, p);
  }

  lemma MulDistributes(r: nat, q: nat, p: nat)
    ensures r * p + q * (128 * p) == (r + 128 * q) * p
  {
  }

  lemma MulMonotone(a: nat, b: nat, p: nat)
    requires a <= b
    ensures a * p <= b * p
  {
  }

  lemma Dec64Step(s: seq<byte>, k: nat, acc: nat, d: nat)
    requires |s| > 0 && k < 10 && d < 128 && (s[0] == d || s[0] == d + 128)
    requires acc + d * Pow128(k) < TWO64
    ensures var sum := acc + d * Pow128(k);
            Dec64(s, k, acc) == if s[0] >= 128 then Dec64(s[1..], k + 1, sum) else Some((sum, s[1..]))
  {
    hide Pow128;
    Digit(s[0], d);
  }

  lemma {:induction false} Dec64OfEnc(v: nat, k: nat, acc: nat, rest: seq<byte>)
    requires k < 10 && acc < Pow128(k) && acc + v * Pow128(k) < TWO64
    ensures Dec64(EncVarint(v) + rest, k, acc) == Some((acc + v * Pow128(k), rest))
    decreases v
  {
    hide Dec64, EncVarint, Pow128;
    FirstOf(v);
    var p, s := Pow128(k), EncVarint(v) + rest;
    Regroup(v, p);
    MulMonotone(v % 128, v, p);
    Dec64Step(s, k, acc, v % 128);
    if v < 128 {
      assert s[1..] == rest;
    } else {
      assert s[1..] == EncVarint(v / 128) + rest;
      if k == 9 {
        TooBig(v);
        assert false;
      }
      MulMonotone(v % 128, 127, p);
      NextPow(k);
      Dec64OfEnc(v / 128, k + 1, acc + v % 128 * p, rest);
    }
  }

  lemma TooBig(v: nat)
    requires v >= 128
    ensures v * Pow128(9) >= TWO64
  {
    TenGroups();
    MulMonotone(128, v, Pow128(9));
  }

  // Every 64-bit value survives, in at most ten bytes.
  lemma VarintRoundTrip(v: nat, rest: seq<byte>)
    requires v < TWO64
    ensures Dec64(EncVarint(v) + rest, 0, 0) == Some((v, rest)) && |EncVarint(v)| <= 10
  {
    Dec64OfEnc(v, 0, 0, rest);
    TenGroups();
    VarintLength(v, 10);
  }

  // ---- 32-bit decoding ----

  // The bytes after the first. From the sixth on they must repeat the sign or be empty.
  function More32(s: seq<byte>, k: nat, result: nat): (r: Option<(nat, seq<byte>)>)
    ensures r.Some? ==> |r.value.1| < |s|
    decreases |s|
  {
    if |s| == 0 then None else
    var b := s[0];
    if k >= 5 && b % 128 != 0 && (result < TWO31 || b != if k < 9 then 0xFF else 0x01) then None else
    var acc := if k >= 5 then result else (result + b % 128 * Pow128(k)) % TWO32;
    if b >= 128 then More32(s[1..], k + 1, acc)
    else if k == 4 && b / 16 % 8 != 0 then None
    else Some((acc, s[1..]))
  }

  function Dec32(s: seq<byte>): (r: Option<(nat, seq<byte>)>)
    ensures r.Some? ==> |r.value.1| < |s|
  {
    if |s| == 0 then None
    else if s[0] < 128 then Some((s[0], s[1..]))
    else More32(s[1..], 1, s[0] % 128)
  }

  // What is left of a 64-bit value above bit 7k looks like a sign extension to the 32-bit
  // decoder: every seven bits are all ones or all zeros, and the topmost bit is set.
  predicate SignGroups(v: nat, k: nat)
    decreases 10 - k
  {
    if k >= 9 then v == 1 else v >= 128 && (v % 128 == 0 || v % 128 == 127) && SignGroups(v / 128, k + 1)
  }

  predicate SignLike(v: nat) {
    v / TWO31 % 2 == 1 && SignGroups(v / (8 * TWO32), 5)
  }

  lemma {:induction false} More32Tail(v: nat, k: nat, result: nat, rest: seq<byte>)
    requires 5 <= k <= 9 && 0 < v && (k == 9 ==> v == 1) && v * Pow128(k) < TWO64
    ensures More32(EncVarint(v) + rest, k, result) ==
            if result >= TWO31 && SignGroups(v, k) then Some((result, rest)) else None
    decreases v
  {
    var s := EncVarint(v) + rest;
    if v < 128 {
      assert s[0] == v && s[1..] == rest;
    } else {
      assert s[0] == v % 128 + 128 && s[1..] == EncVarint(v / 128) + rest;
      Regroup(v, Pow128(k));
      assert Pow128(k + 1) == 128 * Pow128(k);
      TenGroups();
      if k == 8 {
        TopBit(v / 128);
      }
      More32Tail(v / 128, k + 1, result, rest);
    }
  }

  lemma TopBit(q: nat)
    requires q * Pow128(9) < TWO64 && q > 0
    ensures q == 1
  {
    TenGroups();
  }

  // What the 32-bit decoder answers to the canonical encoding of a 64-bit value from byte k on.
  lemma {:induction false} More32OfEnc(v: nat, k: nat, acc: nat, rest: seq<byte>)
    requires 1 <= k <= 4 && 0 < v && acc < Pow128(k) && acc + v * Pow128(k) < TWO64
    ensures var w := acc + v * Pow128(k);
            More32(EncVarint(v) + rest, k, acc) ==
            if w < TWO32 || SignLike(w) then Some((w % TWO32, rest)) else None
    decreases 4 - k
  {
    hide SignLike, EncVarint, Pow128, More32;
    if k == 4 {
      FifthByte(v, acc, rest);
    } else {
      var s := EncVarint(v) + rest;
      FirstOf(v);
      MoreStep(v, k, acc);
      if v < 128 {
        assert s == [v] + rest && s[0] == v && s[1..] == rest;
        MoreByte(s, k, acc, v);
        NotSignLike(acc + v * Pow128(k));
      } else {
        assert s == [v % 128 + 128] + (EncVarint(v / 128) + rest);
        assert s[0] == v % 128 + 128 && s[1..] == EncVarint(v / 128) + rest;
        MoreByte(s, k, acc, v % 128);
        More32OfEnc(v / 128, k + 1, acc + v % 128 * Pow128(k), rest);
      }
    }
  }

  lemma MoreByte(s: seq<byte>, k: nat, acc: nat, d: nat)
    requires k <= 3 && |s| > 0 && d < 128 && (s[0] == d || s[0] == d + 128) && acc + d * Pow128(k) < 0x1000_0000
    ensures More32(s, k, acc) ==
            if s[0] == d then Some((acc + d * Pow128(k), s[1..])) else More32(s[1..], k + 1, acc + d * Pow128(k))
  {
    hide Pow128;
    Digit(s[0], d);
    var x := d * Pow128(k);
    assert s[0] % 128 * Pow128(k) == x;
    assert (acc + x) % TWO32 == acc + x;
  }

  lemma Digit(b: nat, d: nat)
    requires d < 128 && (b == d || b == d + 128)
    ensures b % 128 == d
  {
  }

  // One byte moves from the rest of the value to the part gathered so far.
  lemma MoreStep(v: nat, k: nat, acc: nat)
    requires k <= 3 && acc < Pow128(k)
    ensures var p, q := Pow128(k), Pow128(k + 1);
            && acc + v % 128 * p < q <= 0x1000_0000
            && acc + v * p == (acc + v % 128 * p) + v / 128 * q
            && (v < 128 ==> acc + v * p == acc + v % 128 * p)
  {
    var p := Pow128(k);
    Small(k);
    NextPow(k);
    Regroup(v, p);
    MulMonotone(v % 128, 127, p);
  }

  lemma PowZero()
    ensures Pow128(0) == 1
  {
  }

  lemma NextPow(k: nat)
    ensures Pow128(k + 1) == 128 * Pow128(k)
  {
  }

  lemma FirstOf(v: nat)
    ensures EncVarint(v) == if v < 128 then [v] else [v % 128 + 128] + EncVarint(v / 128)
  {
  }

  lemma Small(k: nat)
    requires k <= 3
    ensures 128 * Pow128(k) <= 0x1000_0000
  {
    assert Pow128(3) == 128 * Pow128(2) && Pow128(2) == 128 * Pow128(1) && Pow128(1) == 128 * Pow128(0);
  }

  lemma NotSignLike(w: nat)
    requires w < 8 * TWO32
    ensures !SignLike(w)
  {
  }

  lemma FifthByte(v: nat, acc: nat, rest: seq<byte>)
    requires 0 < v && acc < Pow128(4) && acc + v * Pow128(4) < TWO64
    ensures var w := acc + v * Pow128(4);
            More32(EncVarint(v) + rest, 4, acc) == if w < TWO32 || SignLike(w) then Some((w % TWO32, rest)) else None
  {
    hide Pow128, SignGroups, EncVarint, More32;
    TenGroups();
    FirstOf(v);
    var s, w := EncVarint(v) + rest, acc + v * 0x1000_0000;
    var low := (acc + v % 128 * 0x1000_0000) % TWO32;
    LowWord(v, acc);
    if v < 128 {
      assert s == [v] + rest && s[0] == v && s[1..] == rest;
      FifthStep(s, acc, v);
      NotSignLike(w);
    } else {
      assert s == [v % 128 + 128] + (EncVarint(v / 128) + rest);
      assert s[0] == v % 128 + 128 && s[1..] == EncVarint(v / 128) + rest;
      FifthStep(s, acc, v % 128);
      Regroup(v, 0x1000_0000);
      More32Tail(v / 128, 5, low, rest);
    }
  }

  lemma FifthStep(s: seq<byte>, acc: nat, d: nat)
    requires |s| > 0 && d < 128 && (s[0] == d || s[0] == d + 128)
    ensures var low := (acc + d * 0x1000_0000) % TWO32;
            More32(s, 4, acc) == if s[0] >= 128 then More32(s[1..], 5, low)
                                 else if d / 16 % 8 != 0 then None else Some((low, s[1..]))
  {
    hide Pow128;
    TenGroups();
    Digit(s[0], d);
  }

  lemma LowWord(v: nat, acc: nat)
    requires acc < 0x1000_0000
    ensures var w := acc + v * 0x1000_0000;
            var low := (acc + v % 128 * 0x1000_0000) % TWO32;
            && low == w % TWO32 && w / (8 * TWO32) == v / 128 && (w / TWO31 % 2 == 1 <==> low >= TWO31)
            && (v < 128 ==> (v / 16 % 8 == 0 <==> w < TWO32))
  {
    var q, r := v / 128, v % 128;
    assert v == 128 * q + r;
    LowPart(acc + r * 0x1000_0000, q);
    SignBit(acc + v * 0x1000_0000);
  }

  lemma LowPart(x: nat, q: nat)
    requires x < 8 * TWO32
    ensures var w := x + q * (8 * TWO32); w % TWO32 == x % TWO32 && w / (8 * TWO32) == q
  {
  }

  lemma SignBit(w: nat)
    ensures w / TWO31 % 2 == 1 <==> w % TWO32 >= TWO31
  {
  }

  // The 32-bit decoder on every canonical varint: the values it takes, exactly.
  lemma Dec32Exactly(v: nat, rest: seq<byte>)
    requires v < TWO64
    ensures Dec32(EncVarint(v) + rest) == if v < TWO32 || SignLike(v) then Some((v % TWO32, rest)) else None
  {
    hide SignLike, EncVarint, More32;
    FirstOf(v);
    var s := EncVarint(v) + rest;
    if v < 128 {
      assert s == [v] + rest && s[1..] == rest;
    } else {
      assert s == [v % 128 + 128] + (EncVarint(v / 128) + rest);
      assert s[0] == v % 128 + 128 && s[1..] == EncVarint(v / 128) + rest;
      assert Pow128(1) == 128 * Pow128(0);
      More32OfEnc(v / 128, 1, v % 128, rest);
    }
  }

  // A negative 32-bit number sent as 64 bits is among them and keeps its low 32 bits; no value
  // from 2^32 to 2^63 is.
  lemma SignExtended(m: nat)
    requires 0 < m <= TWO31
    ensures SignLike(TWO64 - m) && (TWO64 - m) % TWO32 == TWO32 - m
  {
    var v := TWO64 - m;
    assert v / (8 * TWO32) == 0x1FFF_FFFF;
    assert SignGroups(1, 9);
    assert SignGroups(255, 8);
    assert SignGroups(32767, 7);
    assert SignGroups(4194303, 6);
  }

  lemma SignLikeIsHuge(v: nat)
    requires v < TWO64 && SignLike(v)
    ensures v >= TWO63
  {
    var a := v / (8 * TWO32);
    assert SignGroups(a, 5) && SignGroups(a / 128, 6) && SignGroups(a / 128 / 128, 7);
    assert SignGroups(a / 128 / 128 / 128, 8) && SignGroups(a / 128 / 128 / 128 / 128, 9);
  }

  // ---- Signed numbers ----

  // The bit pattern of a signed 64-bit number, and back.
  function AsUint64(n: int): nat
    requires MIN64 <= n < TWO63
  {
    if n < 0 then TWO64 + n else n
  }

  function AsInt64(u: nat): int
    requires u < TWO64
  {
    if u < TWO63 then u else u - TWO64
  }

  function AsInt32(u: nat): int {
    if u % TWO32 < TWO31 then u % TWO32 else u % TWO32 - TWO32
  }

  // Shift left, and invert if negative.
  function ZigZag(n: int): nat
    requires MIN64 <= n < TWO63
  {
    if n < 0 then TWO64 - 1 - 2 * n % TWO64 else 2 * n
  }

  function UnZigZag(v: nat): int
    requires v < TWO64
  {
    if v % 2 == 1 then AsInt64(TWO64 - 1 - v / 2) else v / 2
  }

  // Two's complement, and zigzag's order 0, -1, 1, -2, 2, ...
  lemma SignedValues(n: int)
    requires MIN64 <= n < TWO63
    ensures 0 <= AsUint64(n) < 0x1_0000_0000_0000_0000
    ensures AsUint64(n) == n || AsUint64(n) == n + 0x1_0000_0000_0000_0000
    ensures ZigZag(n) == if n >= 0 then 2 * n else -2 * n - 1
  {
    if n < 0 {
      assert 2 * n % TWO64 == 2 * n + TWO64;
    }
  }

  // Zigzag is a bijection between the signed and the unsigned 64-bit numbers.
  lemma ZigZagBijective(n: int, v: nat)
    requires MIN64 <= n < TWO63 && v < TWO64
    ensures ZigZag(n) < TWO64 && UnZigZag(ZigZag(n)) == n
    ensures MIN64 <= UnZigZag(v) < TWO63 && ZigZag(UnZigZag(v)) == v
  {
    if n < 0 {
      assert 2 * n % TWO64 == 2 * n + TWO64;
    }
    if v % 2 == 1 {
      assert UnZigZag(v) == -(v / 2) - 1;
      assert 2 * UnZigZag(v) % TWO64 == 2 * UnZigZag(v) + TWO64;
    }
  }
}
