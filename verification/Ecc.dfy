// The single-byte error-correcting code of xTP: two check bytes over a block of at most 255.
module Ecc {
  import opened Lfsr

  datatype EccResult = EccOk | EccCorrected | EccFailParity | EccFailUncorrected

  const MAX_BLOCK: nat := 255

  // ---- Specification ----

  // First check byte: XOR of the block.
  function Parity(s: seq<bv8>): bv8 {
    if |s| == 0 then 0 else Xor(Parity(s[..|s| - 1]), s[|s| - 1])
  }

  // Second check byte: every byte folded through the register once per remaining position.
  function Locator(s: seq<bv8>): bv8 {
    if |s| == 0 then 0 else Lf(Xor(Locator(s[..|s| - 1]), s[|s| - 1]))
  }

  // Register steps from x until it equals y, at most n.
  function StepsTo(x: bv8, y: bv8, n: nat): nat
    decreases n
  {
    if x == y || n == 0 then 0 else 1 + StepsTo(Lf(x), y, n - 1)
  }

  // What the decoder answers, and the block it leaves behind.
  function Decoded(s: seq<bv8>, r0: bv8, r1: bv8): (EccResult, seq<bv8>) {
    var s0, s1 := Xor(Parity(s), r0), Xor(Locator(s), r1);
    if |s| == 0 then (EccFailUncorrected, s)
    else if s0 == 0 && s1 == 0 then (EccOk, s)
    else if s0 == 0 || s1 == 0 then (EccFailParity, s)
    else
      var steps := StepsTo(s1, s0, 255);
      var idx := |s| - 255 + steps;
      if steps >= 255 || idx < 0 || idx >= |s| then (EccFailUncorrected, s)
      else (EccCorrected, s[idx := Xor(s[idx], s0)])
  }

  // ---- Implementation ----

  method Encode(data: array<bv8>, len: nat) returns (ecc0: bv8, ecc1: bv8)
    requires len <= data.Length && len <= MAX_BLOCK
    ensures ecc0 == Parity(data[..len]) && ecc1 == Locator(data[..len])
  {
    hide Xor, Lf;
    ecc0, ecc1 := 0, 0;
    var i := 0;
    while i < len
      invariant 0 <= i <= len
      invariant ecc0 == Parity(data[..i]) && ecc1 == Locator(data[..i])
    {
      assert data[..i + 1][..i] == data[..i];
      ecc0 := Xor(ecc0, data[i]);
      ecc1 := Lf(Xor(ecc1, data[i]));
      i := i + 1;
    }
  }

  method Decode(data: array<bv8>, len: nat, r0: bv8, r1: bv8) returns (res: EccResult)
    requires len <= data.Length && len <= MAX_BLOCK
    modifies data
    ensures (res, data[..len]) == Decoded(old(data[..len]), r0, r1)
    ensures data[len..] == old(data[len..])
  {
    hide Xor, Lf, Parity, Locator;
    if len == 0 {
      return EccFailUncorrected;
    }
    var scc0, scc1 := Encode(data, len);
    scc0 := Xor(scc0, r0);
    scc1 := Xor(scc1, r1);
    if scc0 == 0 && scc1 == 0 {
      return EccOk;
    }
    if scc0 == 0 || scc1 == 0 {
      return EccFailParity;
    }
    ghost var start := scc1;
    var idx := len - 255;
    var steps := 0;
    while scc1 != scc0
      invariant 0 <= steps < 255 && idx == len - 255 + steps
      invariant StepsTo(start, scc0, 255) == steps + StepsTo(scc1, scc0, 255 - steps)
      decreases 255 - steps
    {
      scc1 := Lf(scc1);
      idx := idx + 1;
      steps := steps + 1;
      if steps >= 255 {
        return EccFailUncorrected;
      }
    }
    if idx < 0 || idx >= len {
      return EccFailUncorrected;
    }
    data[idx] := Xor(data[idx], scc0);
    return EccCorrected;
  }

  // ---- How one altered byte moves the check bytes ----

  lemma {:induction false} ParityUpdate(s: seq<bv8>, k: nat, v: bv8)
    requires k < |s|
    ensures Parity(s[k := v]) == Xor(Parity(s), Xor(s[k], v))
  {
    hide Xor;
    var n := |s| - 1;
    var p, e := Parity(s[..n]), Xor(s[k], v);
    if k == n {
      assert s[k := v][..n] == s[..n];
      XorSwap(p, s[k], v);
    } else {
      assert s[k := v][..n] == s[..n][k := v];
      ParityUpdate(s[..n], k, v);
      XorShuffle(p, e, s[n]);
    }
  }

  lemma XorSwap(p: bv8, a: bv8, b: bv8)
    ensures Xor(p, b) == Xor(Xor(p, a), Xor(a, b))
  {
  }

  lemma XorShuffle(p: bv8, a: bv8, b: bv8)
    ensures Xor(Xor(p, a), b) == Xor(Xor(p, b), a)
  {
  }

  lemma {:induction false} LocatorUpdate(s: seq<bv8>, k: nat, v: bv8)
    requires k < |s|
    ensures Locator(s[k := v]) == Xor(Locator(s), Rot(Xor(s[k], v), |s| - k))
  {
    hide Xor, Lf;
    var n := |s| - 1;
    var p, e := Locator(s[..n]), Xor(s[k], v);
    if k == n {
      assert s[k := v][..n] == s[..n];
      XorSwap(p, s[k], v);
      LfXor(Xor(p, s[k]), e);
      Rot1(e);
    } else {
      assert s[k := v][..n] == s[..n][k := v];
      LocatorUpdate(s[..n], k, v);
      RotSnoc(e, n - k);
      XorShuffle(p, Rot(e, n - k), s[n]);
      LfXor(Xor(p, s[n]), Rot(e, n - k));
    }
  }

  // ---- What the decoder's answer means ----

  ghost predicate IsCodeword(s: seq<bv8>, r0: bv8, r1: bv8) {
    Parity(s) == r0 && Locator(s) == r1
  }

  // t is s with exactly the byte at k altered.
  ghost predicate DiffersAt(s: seq<bv8>, t: seq<bv8>, k: nat) {
    |s| == |t| && k < |s| && s[k] != t[k] && t == s[k := t[k]]
  }

  lemma {:induction false} StepsToMeets(x: bv8, y: bv8, k: nat, n: nat)
    requires x != 0 && k < n && k < 255 && Rot(x, k) == y
    ensures StepsTo(x, y, n) == k
    decreases k
  {
    hide Lf;
    if k != 0 {
      NoShortPeriod(x, k);
      RotNonzero(x, 1);
      Rot1(x);
      StepsToMeets(Lf(x), y, k - 1, n - 1);
    }
  }

  // Both syndromes non-zero: the rotation meets within 254 steps, so the guard that gives
  // up after 255 steps never fires.
  lemma RotationMeets(x: bv8, y: bv8)
    requires x != 0 && y != 0
    ensures StepsTo(x, y, 255) < 255 && Rot(x, StepsTo(x, y, 255)) == y
  {
    hide *;
    Reachable(x, y);
    var k: nat :| k < 255 && Rot(x, k) == y;
    StepsToMeets(x, y, k, 255);
  }

  // From the block to a codeword one byte away: the syndromes of that byte.
  lemma SyndromesOf(s: seq<bv8>, t: seq<bv8>, k: nat)
    requires DiffersAt(s, t, k)
    ensures var e := Xor(s[k], t[k]);
            e != 0 && Xor(Parity(s), Parity(t)) == e && Xor(Locator(s), Locator(t)) == Rot(e, |s| - k)
  {
    hide Xor, Parity, Locator;
    var e := Xor(s[k], t[k]);
    XorGroup(s[k], t[k], 0);
    ParityUpdate(s, k, t[k]);
    LocatorUpdate(s, k, t[k]);
    XorGroup(Parity(s), e, 0);
    XorGroup(Locator(s), Rot(e, |s| - k), 0);
  }

  // The decoder repairs a block exactly when some codeword with the received check bytes
  // differs from it in exactly one byte, and then the repaired block is that codeword.
  lemma CorrectsExactly(s: seq<bv8>, r0: bv8, r1: bv8, t: seq<bv8>)
    requires 1 <= |s| <= MAX_BLOCK
    ensures Decoded(s, r0, r1) == (EccCorrected, t)
       <==> IsCodeword(t, r0, r1) && exists k: nat :: DiffersAt(s, t, k)
  {
    hide Xor, Parity, Locator, StepsTo, Rot;
    if IsCodeword(t, r0, r1) && exists k: nat :: DiffersAt(s, t, k) {
      var k: nat :| DiffersAt(s, t, k);
      FindsTheByte(s, r0, r1, t, k);
    }
    if Decoded(s, r0, r1) == (EccCorrected, t) {
      RepairIsCodeword(s, r0, r1, t);
    }
  }

  lemma FindsTheByte(s: seq<bv8>, r0: bv8, r1: bv8, t: seq<bv8>, k: nat)
    requires 1 <= |s| <= MAX_BLOCK && IsCodeword(t, r0, r1) && DiffersAt(s, t, k)
    ensures Decoded(s, r0, r1) == (EccCorrected, t)
  {
    hide Xor, Parity, Locator, StepsTo, Rot;
    var e, d := Xor(s[k], t[k]), |s| - k;
    SyndromesOf(s, t, k);
    RotNonzero(e, d);
    RotAdd(e, d, 255 - d);
    Rot255(e);
    StepsToMeets(Rot(e, d), e, 255 - d, 255);
    XorGroup(s[k], t[k], 0);
  }

  lemma RepairIsCodeword(s: seq<bv8>, r0: bv8, r1: bv8, t: seq<bv8>)
    requires 1 <= |s| <= MAX_BLOCK && Decoded(s, r0, r1) == (EccCorrected, t)
    ensures IsCodeword(t, r0, r1) && exists k: nat :: DiffersAt(s, t, k)
  {
    hide Xor, Parity, Locator, StepsTo, Rot;
    var s0, s1 := Xor(Parity(s), r0), Xor(Locator(s), r1);
    RotationMeets(s1, s0);
    var steps := StepsTo(s1, s0, 255);
    var k := |s| - 255 + steps;
    XorGroup(s[k], s0, 0);
    assert DiffersAt(s, t, k);
    ParityUpdate(s, k, t[k]);
    LocatorUpdate(s, k, t[k]);
    RotAdd(s1, steps, 255 - steps);
    Rot255(s1);
    XorGroup(Parity(s), r0, 0);
    XorGroup(Locator(s), r1, 0);
  }

  // The four answers, each with the exact condition under which it is given.
  lemma AnswersExactly(s: seq<bv8>, r0: bv8, r1: bv8)
    requires 1 <= |s| <= MAX_BLOCK
    ensures var res := Decoded(s, r0, r1).0;
            && (res == EccOk <==> IsCodeword(s, r0, r1))
            && (res == EccFailParity <==> (Parity(s) == r0) != (Locator(s) == r1))
            && (res == EccFailUncorrected <==>
                  && Parity(s) != r0 && Locator(s) != r1
                  && forall t: seq<bv8>, k: nat :: DiffersAt(s, t, k) ==> !IsCodeword(t, r0, r1))
  {
    hide Xor, Parity, Locator, StepsTo;
    XorGroup(Parity(s), r0, 0);
    XorGroup(Locator(s), r1, 0);
    forall t: seq<bv8>, k: nat | DiffersAt(s, t, k)
      ensures IsCodeword(t, r0, r1) ==> Decoded(s, r0, r1).0 == EccCorrected
    {
      CorrectsExactly(s, r0, r1, t);
    }
    if Decoded(s, r0, r1).0 == EccCorrected {
      CorrectsExactly(s, r0, r1, Decoded(s, r0, r1).1);
    }
  }

  // ---- Distance ----

  function Distance(u: seq<bv8>, v: seq<bv8>): nat
    requires |u| == |v|
  {
    if |u| == 0 then 0 else Distance(u[1..], v[1..]) + if u[0] == v[0] then 0 else 1
  }

  lemma {:induction false} DistanceSplit(u: seq<bv8>, v: seq<bv8>, n: nat)
    requires |u| == |v| && n <= |u|
    ensures Distance(u, v) == Distance(u[..n], v[..n]) + Distance(u[n..], v[n..])
  {
    if n != 0 {
      DistanceSplit(u[1..], v[1..], n - 1);
      assert u[..n][1..] == u[1..][..n - 1] && v[..n][1..] == v[1..][..n - 1];
      assert u[1..][n - 1..] == u[n..] && v[1..][n - 1..] == v[n..];
    } else {
      assert u[0..] == u && v[0..] == v;
    }
  }

  lemma {:induction false} DistanceZero(u: seq<bv8>, v: seq<bv8>)
    requires |u| == |v|
    ensures Distance(u, v) == 0 <==> u == v
  {
    if |u| != 0 {
      DistanceZero(u[1..], v[1..]);
      assert u == [u[0]] + u[1..] && v == [v[0]] + v[1..];
    }
  }

  // A first difference: putting v's byte there brings u one step closer to v.
  lemma {:induction false} FirstDifference(u: seq<bv8>, v: seq<bv8>) returns (k: nat)
    requires |u| == |v| && u != v
    ensures k < |u| && u[k] != v[k] && u[..k] == v[..k]
    ensures Distance(u, v) == 1 + Distance(u[k := v[k]], v)
  {
    if u[0] != v[0] {
      k := 0;
      assert u[0 := v[0]][1..] == u[1..];
    } else {
      assert u == [u[0]] + u[1..] && v == [v[0]] + v[1..];
      k := FirstDifference(u[1..], v[1..]);
      var k' := k + 1;
      assert u[k' := v[k']][1..] == u[1..][k := v[k']];
      assert u[..k'] == [u[0]] + u[1..][..k] && v[..k'] == [v[0]] + v[1..][..k];
      k := k';
    }
  }

  function Word(s: seq<bv8>): seq<bv8> {
    s + [Parity(s), Locator(s)]
  }

  // Any two different blocks of the same length give words that differ in at least three bytes.
  lemma MinimumDistance(s: seq<bv8>, t: seq<bv8>)
    requires |s| == |t| <= MAX_BLOCK && s != t
    ensures Distance(Word(s), Word(t)) >= 3
  {
    hide Xor, Parity, Locator, Rot;
    var n := |s|;
    DistanceSplit(Word(s), Word(t), n);
    assert Word(s)[..n] == s && Word(t)[..n] == t;
    assert Word(s)[n..] == [Parity(s), Locator(s)] && Word(t)[n..] == [Parity(t), Locator(t)];
    DistancePair(Parity(s), Locator(s), Parity(t), Locator(t));
    var i := FirstDifference(s, t);
    var m := s[i := t[i]];
    assert DiffersAt(s, m, i);
    SyndromesOf(s, m, i);
    if m == t {
      RotNonzero(Xor(s[i], m[i]), n - i);
      XorGroup(Parity(s), Parity(t), 0);
      XorGroup(Locator(s), Locator(t), 0);
    } else {
      var j := FirstDifference(m, t);
      if m[j := t[j]] == t {
        TwoDifferences(s, m, t, i, j);
      } else {
        var k := FirstDifference(m[j := t[j]], t);
      }
    }
  }

  // So a word altered in one or two bytes, check bytes included, is never taken for intact.
  lemma AlterationNotOk(s: seq<bv8>, u: seq<bv8>, r0: bv8, r1: bv8)
    requires |u| == |s| <= MAX_BLOCK && 1 <= Distance(Word(s), u + [r0, r1]) <= 2
    ensures Decoded(u, r0, r1).0 != EccOk
  {
    hide Parity, Locator, Distance;
    if Decoded(u, r0, r1).0 == EccOk {
      hide Decoded;
      EmptyNotOk(u, r0, r1);
      AnswersExactly(u, r0, r1);
      assert u + [r0, r1] == Word(u);
      if u == s {
        DistanceZero(Word(s), Word(u));
      } else {
        MinimumDistance(s, u);
      }
    }
  }

  lemma EmptyNotOk(u: seq<bv8>, r0: bv8, r1: bv8)
    ensures |u| == 0 ==> Decoded(u, r0, r1).0 != EccOk
  {
  }

  lemma DistancePair(a: bv8, b: bv8, c: bv8, d: bv8)
    ensures Distance([a, b], [c, d]) == (if a == c then 0 else 1) + (if b == d then 0 else 1)
  {
    assert [a, b][1..] == [b] && [c, d][1..] == [d];
    assert [b][1..] == [] && [d][1..] == [];
    assert Distance([b], [d]) == Distance([b][1..], [d][1..]) + if b == d then 0 else 1;
  }

  lemma TwoDifferences(s: seq<bv8>, m: seq<bv8>, t: seq<bv8>, i: nat, j: nat)
    requires |s| <= MAX_BLOCK && i < j < |s|
    requires DiffersAt(s, m, i) && DiffersAt(m, t, j)
    ensures Parity(s) != Parity(t) || Locator(s) != Locator(t)
  {
    hide Xor, Parity, Locator, Rot;
    var n := |s|;
    SyndromesOf(s, m, i);
    SyndromesOf(m, t, j);
    if Parity(s) == Parity(t) && Locator(s) == Locator(t) {
      var a, b := Xor(s[i], m[i]), Xor(m[j], t[j]);
      XorGroup(Parity(s), Parity(m), 0);
      XorGroup(Locator(s), Locator(m), 0);
      assert a == b && Rot(a, n - i) == Rot(a, n - j);
      RotAdd(a, n - j, j - i);
      RotNonzero(a, n - j);
      NoShortPeriod(Rot(a, n - j), j - i);
    }
  }

  // ---- Two wrong data bytes ----

  // xtp_ecc.h promises that two or more wrong bytes are detected. For two wrong data bytes
  // the code keeps that promise exactly on blocks of at most two bytes: in any longer block,
  // whatever it holds, some pair of wrong bytes is "repaired" into a third block.
  lemma TwoWrongBytesDetected(s: seq<bv8>)
    requires 1 <= |s| <= MAX_BLOCK
    ensures (forall u: seq<bv8> :: |u| == |s| && Distance(s, u) == 2
                            ==> Decoded(u, Parity(s), Locator(s)).0 != EccCorrected)
       <==> |s| <= 2
  {
    hide *;
    if |s| <= 2 {
      forall u: seq<bv8> | |u| == |s| && Distance(s, u) == 2
        ensures Decoded(u, Parity(s), Locator(s)).0 != EccCorrected
      {
        ShortBlockNotMiscorrected(s, u);
      }
    } else {
      var u := Miscorrected(s);
    }
  }

  // If wrong check bytes count as well, it keeps the promise on no block at all: two wrong check
  // bytes are taken for one wrong data byte.
  lemma AnyTwoWrongBytesDetected(s: seq<bv8>)
    requires |s| <= MAX_BLOCK
    ensures (forall u: seq<bv8>, r0: bv8, r1: bv8 :: |u| == |s| && Distance(Word(s), u + [r0, r1]) == 2
                                                 ==> Decoded(u, r0, r1).0 != EccCorrected)
       <==> |s| == 0
  {
    if |s| > 0 {
      hide *;
      var r0, r1 := WrongCheckBytes(s);
      CheckBytesApart(s, r0, r1);
    }
  }

  lemma WrongCheckBytes(s: seq<bv8>) returns (r0: bv8, r1: bv8)
    requires 1 <= |s| <= MAX_BLOCK
    ensures r0 != Parity(s) && r1 != Locator(s)
    ensures Decoded(s, r0, r1).0 == EccCorrected && Decoded(s, r0, r1).1 != s
  {
    hide Xor, Parity, Locator, Decoded;
    var t := s[0 := Xor(s[0], 0x01)];
    XorGroup(s[0], 0x01, 0);
    r0, r1 := Parity(t), Locator(t);
    SyndromesOf(s, t, 0);
    RotNonzero(Xor(s[0], t[0]), |s|);
    XorGroup(Parity(s), Parity(t), 0);
    XorGroup(Locator(s), Locator(t), 0);
    FindsTheByte(s, r0, r1, t, 0);
  }

  lemma CheckBytesApart(s: seq<bv8>, r0: bv8, r1: bv8)
    requires r0 != Parity(s) && r1 != Locator(s)
    ensures Distance(Word(s), s + [r0, r1]) == 2
  {
    hide Parity, Locator, Distance;
    var u := s + [r0, r1];
    DistanceSplit(Word(s), u, |s|);
    assert Word(s)[..|s|] == s == u[..|s|];
    assert Word(s)[|s|..] == [Parity(s), Locator(s)] && u[|s|..] == [r0, r1];
    DistanceZero(s, s);
    DistancePair(Parity(s), Locator(s), r0, r1);
  }

  lemma ShortBlockNotMiscorrected(s: seq<bv8>, u: seq<bv8>)
    requires 1 <= |s| <= 2 && |u| == |s| && Distance(s, u) == 2
    ensures Decoded(u, Parity(s), Locator(s)).0 != EccCorrected
  {
    hide Xor, Parity, Locator, Decoded, Distance;
    var (res, t) := Decoded(u, Parity(s), Locator(s));
    if res == EccCorrected {
      CorrectsExactly(u, Parity(s), Locator(s), t);
      var n := |s|;
      DistanceSplit(Word(s), Word(t), n);
      assert Word(s)[..n] == s && Word(t)[..n] == t;
      assert Word(s)[n..] == Word(t)[n..];
      DistanceZero(Word(s)[n..], Word(t)[n..]);
      DistanceBound(s, t);
      if s != t {
        MinimumDistance(s, t);
      }
      var k: nat :| DiffersAt(u, t, k);
      OneDifference(u, t, k);
      DistanceSymmetric(u, s);
    }
  }

  lemma {:induction false} DistanceBound(u: seq<bv8>, v: seq<bv8>)
    requires |u| == |v|
    ensures Distance(u, v) <= |u|
  {
    if |u| != 0 {
      DistanceBound(u[1..], v[1..]);
    }
  }

  lemma {:induction false} DistanceSymmetric(u: seq<bv8>, v: seq<bv8>)
    requires |u| == |v|
    ensures Distance(u, v) == Distance(v, u)
  {
    if |u| != 0 {
      DistanceSymmetric(u[1..], v[1..]);
    }
  }

  lemma OneDifference(u: seq<bv8>, v: seq<bv8>, k: nat)
    requires DiffersAt(u, v, k)
    ensures Distance(u, v) == 1
  {
    var j := FirstDifference(u, v);
    assert j == k;
    DistanceZero(u[j := v[j]], v);
  }

  lemma Miscorrected(s: seq<bv8>) returns (u: seq<bv8>)
    requires 3 <= |s| <= MAX_BLOCK
    ensures |u| == |s| && Distance(s, u) == 2
    ensures Decoded(u, Parity(s), Locator(s)).0 == EccCorrected
    ensures Decoded(u, Parity(s), Locator(s)).1 != s
  {
    hide Xor, Parity, Locator, Decoded, Distance;
    var n := |s|;
    var m := s[n - 3 := Xor(s[n - 3], 0x01)];
    u := m[n - 2 := Xor(m[n - 2], 0x8F)];
    var t := u[n - 1 := Xor(u[n - 1], 0x8E)];
    XorGroup(s[n - 3], 0x01, 0);
    XorGroup(m[n - 2], 0x8F, 0);
    XorGroup(u[n - 1], 0x8E, 0);
    assert DiffersAt(s, m, n - 3) && DiffersAt(m, u, n - 2) && DiffersAt(u, t, n - 1);
    SyndromesOf(s, m, n - 3);
    SyndromesOf(m, u, n - 2);
    SyndromesOf(u, t, n - 1);
    Weight3(Parity(s), Parity(m), Parity(u), Parity(t), 0x01, 0x8F, 0x8E);
    Weight3(Locator(s), Locator(m), Locator(u), Locator(t), Rot(0x01, 3), Rot(0x8F, 2), Rot(0x8E, 1));
    ThreeBytesCancel();
    FindsTheByte(u, Parity(s), Locator(s), t, n - 1);
    TwoStepsApart(s, m, u, n - 3, n - 2);
    assert t[n - 3] == u[n - 3] == m[n - 3] != s[n - 3];
  }

  lemma Weight3(a: bv8, b: bv8, c: bv8, d: bv8, x: bv8, y: bv8, z: bv8)
    requires Xor(a, b) == x && Xor(b, c) == y && Xor(c, d) == z
    ensures Xor(Xor(x, y), z) == 0 ==> a == d
  {
  }

  // Three changes that leave both check bytes as they were.
  lemma ThreeBytesCancel()
    ensures Xor(Xor(0x01, 0x8F), 0x8E) == 0
    ensures Xor(Xor(Rot(0x01, 3), Rot(0x8F, 2)), Rot(0x8E, 1)) == 0
  {
    RotSnoc(0x01, 2);
    RotSnoc(0x01, 1);
    RotSnoc(0x8F, 1);
    Rot1(0x01);
    Rot1(0x8F);
    Rot1(0x8E);
  }

  lemma TwoStepsApart(s: seq<bv8>, m: seq<bv8>, u: seq<bv8>, i: nat, j: nat)
    requires DiffersAt(s, m, i) && DiffersAt(m, u, j) && i < j
    ensures Distance(s, u) == 2
  {
    hide Distance;
    var k := FirstDifference(s, u);
    assert u[i] == m[i];
    assert k == i && s[k := u[k]] == m;
    OneDifference(m, u, j);
  }
}
