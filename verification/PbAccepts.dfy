// What the nanopb decoder accepts beyond what the encoder writes.
module PbAccepts {
  import opened Octets
  import opened Wrappers
  import opened PbWire
  import opened PbTypes
  import opened PbFormat
  import opened PbRoundTrip

  // ---- Varints with more bytes than needed ----

  function Low7(b: byte): (d: nat)
    ensures d < 128
  {
    b % 128
  }

  // The number a varint stands for, canonical or not.
  function VarintValue(s: seq<byte>): nat {
    if |s| == 0 then 0 else Low7(s[0]) + 128 * VarintValue(s[1..])
  }

  lemma OneByte(s: seq<byte>, rest: seq<byte>)
    requires |s| == 1 && EndsOnce(s)
    ensures s[0] < 128 && Low7(s[0]) == s[0] && VarintValue(s) == s[0] && (s + rest)[0] == s[0] && (s + rest)[1..] == rest
  {
    assert s[1..] == [];
  }

  lemma MoreBytes(s: seq<byte>, rest: seq<byte>)
    requires |s| > 1 && EndsOnce(s)
    ensures s[0] >= 128 && EndsOnce(s[1..]) && (s + rest)[0] == s[0] && (s + rest)[1..] == s[1..] + rest
    ensures VarintValue(s) == Low7(s[0]) + 128 * VarintValue(s[1..])
  {
    TailEnds(s);
    hide Low7, EndsOnce;
    TailOf(s, rest);
  }

  lemma TailEnds(s: seq<byte>)
    requires |s| > 1 && EndsOnce(s)
    ensures s[0] >= 128 && EndsOnce(s[1..])
  {
    var t := s[1..];
    assert forall i :: 0 <= i < |t| ==> t[i] == s[i + 1];
  }

  lemma TailOf(s: seq<byte>, rest: seq<byte>)
    requires |s| > 0
    ensures (s + rest)[0] == s[0] && (s + rest)[1..] == s[1..] + rest
  {
  }

  // ---- 64 bits ----

  // A group of bits joins what was gathered so far, in 64 bits.
  function Join64(acc: nat, v: nat, p: nat): nat {
    (acc + v * p) % TWO64
  }

  lemma Dec64Unfold(t: seq<byte>, k: nat, acc: nat)
    requires |t| > 0
    ensures Dec64(t, k, acc) ==
            if k >= 10 then None
            else if t[0] >= 128 then Dec64(t[1..], k + 1, Join64(acc, Low7(t[0]), Pow128(k)))
            else Some((Join64(acc, Low7(t[0]), Pow128(k)), t[1..]))
  {
    hide Pow128;
  }

  lemma {:induction false} Dec64Any(s: seq<byte>, k: nat, acc: nat, rest: seq<byte>)
    requires EndsOnce(s)
    ensures Dec64(s + rest, k, acc) ==
            if k + |s| <= 10 then Some((Join64(acc, VarintValue(s), Pow128(k)), rest)) else None
    decreases |s|
  {
    assert |s| > 0;
    hide Dec64, VarintValue, Pow128, EndsOnce, Low7, Join64;
    Dec64Unfold(s + rest, k, acc);
    if |s| == 1 {
      OneByte(s, rest);
    } else {
      MoreBytes(s, rest);
      if k < 10 {
        var p, d := Pow128(k), Low7(s[0]);
        Dec64Any(s[1..], k + 1, Join64(acc, d, p), rest);
        NextPow(k);
        Gather(acc, d, VarintValue(s[1..]), p);
      }
    }
  }

  // One group at a time, or all at once: the same number modulo 2^64.
  lemma Gather(acc: nat, d: nat, v: nat, p: nat)
    ensures Join64(Join64(acc, d, p), v, 128 * p) == Join64(acc, d + 128 * v, p)
  {
    assert (d + 128 * v) * p == d * p + v * (128 * p);
    AddMod(acc + d * p, v * (128 * p));
  }

  lemma AddMod(x: nat, y: nat)
    ensures (x % TWO64 + y) % TWO64 == (x + y) % TWO64
  {
    assert x + y == x / TWO64 * TWO64 + (x % TWO64 + y);
  }

  // The 64-bit decoder takes every varint of at most ten bytes, for its value modulo 2^64, and no
  // longer one.
  lemma Dec64Exactly(s: seq<byte>, rest: seq<byte>)
    requires EndsOnce(s)
    ensures Dec64(s + rest, 0, 0) == if |s| <= 10 then Some((VarintValue(s) % TWO64, rest)) else None
  {
    hide Dec64, VarintValue, EndsOnce;
    Dec64Any(s, 0, 0, rest);
    PowZero();
  }

  // ---- 32 bits ----

  function Plus(acc: nat, v: nat, p: nat): nat {
    acc + v * p
  }

  lemma {:induction false} More32Any(s: seq<byte>, k: nat, acc: nat, rest: seq<byte>)
    requires EndsOnce(s) && 1 <= k && k + |s| <= 5 && acc < Pow128(k)
    ensures var v := Plus(acc, VarintValue(s), Pow128(k));
            More32(s + rest, k, acc) == if v < TWO32 then Some((v, rest)) else None
    decreases |s|
  {
    assert |s| > 0;
    hide More32, VarintValue, Pow128, EndsOnce, Low7, Plus;
    if |s| == 1 {
      OneByte(s, rest);
      LastGroup(s + rest, k, acc);
    } else {
      MoreBytes(s, rest);
      MoreGroups(s + rest, k, acc);
      More32Any(s[1..], k + 1, Plus(acc, Low7(s[0]), Pow128(k)), rest);
      NextPow(k);
      Regrouped(acc, Low7(s[0]), VarintValue(s[1..]), Pow128(k));
    }
  }

  lemma Regrouped(acc: nat, d: nat, v: nat, p: nat)
    ensures Plus(Plus(acc, d, p), v, 128 * p) == Plus(acc, d + 128 * v, p)
  {
  }

  lemma FourGroups(k: nat, d: nat, acc: nat)
    requires 1 <= k <= 4 && d < 128 && acc < Pow128(k)
    ensures acc + d * Pow128(k) < Pow128(k + 1)
    ensures k < 4 ==> Pow128(k + 1) <= 0x1000_0000
  {
    NextPow(k);
    MulMonotone(d, 127, Pow128(k));
    if k < 4 {
      Small(k);
    }
  }

  lemma FifthGroup(b: nat, acc: nat)
    requires b < 128 && acc < Pow128(4)
    ensures b / 16 % 8 == 0 <==> acc + b * Pow128(4) < TWO32
  {
    TenGroups();
  }

  lemma LastGroup(t: seq<byte>, k: nat, acc: nat)
    requires |t| > 0 && 1 <= k <= 4 && t[0] < 128 && acc < Pow128(k)
    ensures var v := Plus(acc, t[0], Pow128(k)); More32(t, k, acc) == if v < TWO32 then Some((v, t[1..])) else None
  {
    hide Pow128;
    FourGroups(k, t[0], acc);
    if k == 4 {
      FifthGroup(t[0], acc);
    }
  }

  lemma MoreGroups(t: seq<byte>, k: nat, acc: nat)
    requires |t| > 0 && 1 <= k <= 3 && t[0] >= 128 && acc < Pow128(k)
    ensures More32(t, k, acc) == More32(t[1..], k + 1, Plus(acc, Low7(t[0]), Pow128(k)))
    ensures Plus(acc, Low7(t[0]), Pow128(k)) < Pow128(k + 1)
  {
    hide Pow128;
    FourGroups(k, t[0] % 128, acc);
  }

  lemma Dec32Unfold(t: seq<byte>)
    requires |t| > 0
    ensures Dec32(t) == if t[0] < 128 then Some((t[0], t[1..])) else More32(t[1..], 1, Low7(t[0]))
  {
    hide More32;
  }

  lemma FromSecond(s: seq<byte>, d: nat, rest: seq<byte>)
    requires EndsOnce(s) && |s| <= 4 && d < 128
    ensures var v := d + 128 * VarintValue(s); More32(s + rest, 1, d) == if v < TWO32 then Some((v, rest)) else None
  {
    assert Pow128(1) == 128 by {
      PowZero();
      NextPow(0);
    }
    hide Pow128, More32, VarintValue, EndsOnce;
    More32Any(s, 1, d, rest);
  }

  // The 32-bit decoder takes every varint of at most five bytes whose value is below 2^32.
  lemma Dec32Short(s: seq<byte>, rest: seq<byte>)
    requires EndsOnce(s) && |s| <= 5
    ensures Dec32(s + rest) == if VarintValue(s) < TWO32 then Some((VarintValue(s), rest)) else None
  {
    assert |s| > 0;
    hide *;
    Dec32Unfold(s + rest);
    if |s| == 1 {
      OneByte(s, rest);
    } else {
      MoreBytes(s, rest);
      FromSecond(s[1..], Low7(s[0]), rest);
    }
  }

  // ---- Numbers of every width ----

  // The range of a signed C integer of the given size.
  predicate InSigned(n: int, size: nat) {
    match size
    case 1 => -0x80 <= n < 0x80
    case 2 => -0x8000 <= n < 0x8000
    case 4 => -0x8000_0000 <= n < 0x8000_0000
    case 8 => -0x8000_0000_0000_0000 <= n < 0x8000_0000_0000_0000
    case _ => false
  }

  predicate InUnsigned(n: int, size: nat) {
    match size
    case 1 => 0 <= n < 0x100
    case 2 => 0 <= n < 0x1_0000
    case 4 => 0 <= n < 0x1_0000_0000
    case 8 => 0 <= n < 0x1_0000_0000_0000_0000
    case _ => false
  }

  // The number that a received 64-bit varint gives a field: two's complement of the low 32 bits for
  // signed fields of less than eight bytes.
  function Meaning(f: Field, u: nat): int {
    match f.ltype
    case SVarint => if u % 2 == 0 then u / 2 else -(u / 2) - 1
    case Varint =>
      if f.size == 8 then (if u < 0x8000_0000_0000_0000 then u else u - 0x1_0000_0000_0000_0000)
      else if u % 0x1_0000_0000 < 0x8000_0000 then u % 0x1_0000_0000 else u % 0x1_0000_0000 - 0x1_0000_0000
    case _ => u
  }

  lemma FitsExactly(f: Field, u: nat, s: seq<byte>)
    requires f.ltype in {Varint, UVarint, SVarint} && ValidField(f) && u < 0x1_0000_0000_0000_0000
    ensures FitNumber(f, u, s) ==
            var n := Meaning(f, u);
            if (if f.ltype.UVarint? then InUnsigned(n, f.size) else InSigned(n, f.size)) then Some((Num(n), s)) else None
  {
    assert u % TWO64 == u;
    assert f.size in {1, 2, 4, 8};
  }

  // Any 64-bit number arriving for an integer field of any width is stored with its meaning, or
  // rejected exactly if that is out of the range of the field's type.
  lemma NumberExactly(f: Field, u: nat, rest: seq<byte>)
    requires f.ltype in {Varint, UVarint, SVarint} && ValidField(f) && u < 0x1_0000_0000_0000_0000
    ensures DecNumber(f, EncVarint(u) + rest) ==
            var n := Meaning(f, u);
            if (if f.ltype.UVarint? then InUnsigned(n, f.size) else InSigned(n, f.size)) then Some((Num(n), rest)) else None
  {
    hide Dec64, EncVarint, FitNumber, ValidField, InSigned, InUnsigned, Meaning;
    VarintRoundTrip(u, rest);
    FitsExactly(f, u, rest);
  }

  // ---- Byte strings of every length ----

  // What precedes the first zero byte.
  ghost predicate BeforeZero(s: seq<byte>, t: seq<byte>) {
    t <= s && 0 !in t && (t == s || s[|t|] == 0)
  }

  lemma {:induction false} CStringExactly(s: seq<byte>)
    ensures BeforeZero(s, CString(s))
    decreases |s|
  {
    if |s| > 0 && s[0] != 0 {
      CStringExactly(s[1..]);
      assert s == [s[0]] + s[1..];
    }
  }

  // Any received length: a string must leave room for its terminator and is cut at its first zero,
  // fixed-size bytes must have exactly the size of the field or none at all, which leaves zeros.
  lemma BlobExactly(f: Field, b: seq<byte>, rest: seq<byte>)
    requires f.ltype in {String, FixedBytes} && ValidField(f) && |b| < TWO32
    ensures f.ltype.String? ==>
              DecBlob(f, Delimited(b) + rest) == if |b| < f.size then Some((Blob(CString(b)), rest)) else None
    ensures f.ltype.FixedBytes? ==>
              DecBlob(f, Delimited(b) + rest) ==
              if |b| == 0 then Some((Blob(seq(f.size, i => 0)), rest))
              else if |b| == f.size then Some((Blob(b), rest)) else None
  {
    hide Dec32, EncVarint, Delimited, TakeDelimited, CString;
    DelimitedRoundTrip(b, rest);
    assert (b + rest)[..|b|] == b && (b + rest)[|b|..] == rest;
    assert f.size <= 0xFFFF;
    if |b| == 0 {
      assert b + rest == rest;
    }
    assert Zeros(f.size) == seq(f.size, i => 0);
  }
}
